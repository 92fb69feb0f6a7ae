/** lzop's compressor: whatever matches its dictionary finds, the stream it writes decodes to the block. */
module LzoCompress {
  import opened Bits
  import opened Options
  import opened LzoFormat
  import opened LzoCoder
  import LzoOptimize
  import opened Chains
  import Deflate
  import Inflate

  const SWD_F := 2048
  const SWD_BEST_OFF := 34

  /** The match the stream ends with: what was written and decoded before it, and the literals before it. */
  datatype Tail = NoTail | Tail(w: seq<byte>, o: seq<byte>, r1: nat, len: nat, off: nat)

  ghost predicate MatchLast(t: Tail, out: seq<byte>, dec: seq<byte>)
  {
    && t.Tail? && Codable(t.len, t.off, t.r1) && 1 <= t.off <= |t.o| && Coded(t.w, At(StateAfter(t.r1), |t.w|, t.o))
    && out == t.w + MatchBytes(t.len, t.off, t.r1, 0) && dec == Inflate.CopyMatch(t.o, t.len, t.off)
  }

  ghost predicate Ends(t: Tail, r1: nat, len: nat, off: nat)
  {
    t.Tail? && t.r1 == r1 && t.len == len && t.off == off
  }

  /** Nothing was written yet, or a match was written last. */
  ghost predicate Written(t: Tail, out: seq<byte>, dec: seq<byte>)
  {
    if t == NoTail then out == [] && dec == [] else MatchLast(t, out, dec)
  }

  /** What was written so far decodes to dec, and n literals were written last. */
  ghost predicate Behind(out: seq<byte>, n: nat, dec: seq<byte>)
  {
    Coded(out, At(StateAfter(n), |out|, dec))
  }

  lemma WrittenBehind(t: Tail, out: seq<byte>, dec: seq<byte>)
    requires Written(t, out, dec)
    ensures Behind(out, 0, dec)
  {
    hide Coded, MatchBytes, Inflate.CopyMatch, Codable;
    if t.Tail? {
      MatchCoded(t.w, t.o, t.len, t.off, t.r1, []);
      assert out + [] == out && dec + [] == dec;
    } else {
      StartCoded();
    }
  }

  lemma StartCoded()
    ensures Coded([], At(Fresh, 0, []))
  {
  }

  /** Up to three literals are counted in the match before them. */
  lemma FewBehind(t: Tail, out: seq<byte>, dec: seq<byte>, lits: seq<byte>)
    requires MatchLast(t, out, dec) && |lits| < 4
    ensures |out| >= 2 && out[|out| - 2] % 4 == 0 && out[|out| - 2] + |lits| < 0x100
    ensures Behind(out[|out| - 2 := out[|out| - 2] + |lits|] + lits, |lits|, dec + lits)
  {
    hide Coded, MatchBytes, Inflate.CopyMatch, Codable;
    var s := MatchBytes(t.len, t.off, t.r1, 0);
    CountAdded(t.len, t.off, t.r1, |lits|);
    MatchCoded(t.w, t.o, t.len, t.off, t.r1, lits);
    FourFits(s[|s| - 2], |lits|);
    assert out[|out| - 2] == s[|s| - 2];
    assert out[|out| - 2 := out[|out| - 2] + |lits|] == t.w + s[|s| - 2 := s[|s| - 2] + |lits|];
  }

  lemma FourFits(b: byte, n: nat)
    requires b % 4 == 0 && n < 4
    ensures b + n < 0x100
  {
  }

  /** Coding one match takes fewer bytes than coding the other, whatever precedes them. */
  ghost predicate Cheaper(l: nat, o: nat, len: nat, off: nat)
  {
    && 3 <= l < len && 1 <= o <= M4_MAX_OFFSET && 1 <= off <= M4_MAX_OFFSET
    && forall r1: nat :: |MatchBytes(l, o, r1, 0)| < |MatchBytes(len, off, r1, 0)|
  }

  lemma NearSize(len: nat, off: nat)
    requires 3 <= len <= M2_MAX_LEN && 1 <= off <= M2_MAX_OFFSET
    ensures forall r1: nat :: |MatchBytes(len, off, r1, 0)| == 2
  {
  }

  lemma MiddleSize(len: nat, off: nat)
    requires 3 <= len <= M3_MAX_LEN && 1 <= off <= M3_MAX_OFFSET
    ensures forall r1: nat :: |MatchBytes(len, off, r1, 0)| <= 3
  {
  }

  lemma FarSize(len: nat, off: nat)
    requires len >= 4 && M2_MAX_OFFSET < off <= M4_MAX_OFFSET
    ensures forall r1: nat :: |MatchBytes(len, off, r1, 0)| >= 3
    ensures off > M3_MAX_OFFSET && len > M4_MAX_LEN ==> forall r1: nat :: |MatchBytes(len, off, r1, 0)| >= 4
  {
  }

  /** len_of_coded_match: how many bytes a match takes; negative where it cannot be coded. */
  method LenOfCodedMatch(len: nat, off: nat, lit: nat) returns (n: int)
    requires off >= 1
    ensures n < 0 <==> !Codable(len, off, lit)
    ensures Codable(len, off, lit) ==> n == |MatchBytes(len, off, lit, 0)|
  {
    n := 4;
    var m: int := len;
    if len < 2 { return -1; }
    if len == 2 { return if off <= M1_MAX_OFFSET && 0 < lit < 4 then 2 else -1; }
    if len <= M2_MAX_LEN && off <= M2_MAX_OFFSET { return 2; }
    if len == M2_MIN_LEN && off <= MX_MAX_OFFSET && lit >= 4 { return 2; }
    if off <= M3_MAX_OFFSET {
      if len <= M3_MAX_LEN { return 3; }
      m := m - M3_MAX_LEN;
    } else if off <= M4_MAX_OFFSET {
      if len <= M4_MAX_LEN { return 3; }
      m := m - M4_MAX_LEN;
    } else {
      return -1;
    }
    ghost var all := |Extra(m)| + 3;
    assert |MatchBytes(len, off, lit, 0)| == all;
    while m > 255
      invariant m >= 1 && n + |Extra(m)| == all + 1
    {
      m := m - 255;
      n := n + 1;
    }
  }

  class Compressor {
    const input: seq<byte>
    const useBestOff: bool
    var out: seq<byte>
    var r1Lit: nat
    var mLen: nat
    var mOff: nat
    var bp: nat
    var next: nat
    var bestOff: seq<nat>
    ghost var dec: seq<byte>
    ghost var tail: Tail

    constructor (input: seq<byte>, useBestOff: bool)
      ensures this.input == input && this.useBestOff == useBestOff && next == 0 && |bestOff| == SWD_BEST_OFF
      ensures Written(tail, out, dec) && dec == []
    {
      this.input, this.useBestOff := input, useBestOff;
      out, r1Lit, mLen, mOff, bp, next := [], 0, 0, 0, 0, 0;
      bestOff := seq(SWD_BEST_OFF, _ => 0);
      dec, tail := [], NoTail;
    }

    // ---------- writing ----------

    method PutExtra(n: nat)
      requires n >= 1
      modifies this`out
      ensures out == old(out) + Extra(n)
    {
      var m := n;
      while m > 255
        invariant m >= 1 && out + Extra(m) == old(out) + Extra(n)
      {
        var before, was := out, m;
        out := out + [0];
        m := m - 255;
        assert Extra(was) == [0] + Extra(m);
        assert out + Extra(m) == before + ([0] + Extra(m));
      }
      out := out + [m];
    }

    method PutLength(marker: nat, max: nat, len: nat)
      requires 3 <= max && marker + max < 258 && len >= 3
      modifies this`out
      ensures out == old(out) + LengthBytes(marker, max, len)
    {
      if len <= max {
        out := out + [marker + (len - 2)];
      } else {
        out := out + [marker];
        PutExtra(len - max);
        assert out == old(out) + ([marker] + Extra(len - max));
      }
    }

    /** code_match: the bytes of a match, which decode to its copy. */
    method CodeMatch(len: nat, off: nat)
      requires Behind(out, r1Lit, dec) && Codable(len, off, r1Lit) && off <= |dec|
      modifies this`out, this`dec, this`tail
      ensures Written(tail, out, dec) && Ends(tail, r1Lit, len, off) && dec == Inflate.CopyMatch(old(dec), len, off)
      ensures out == old(out) + MatchBytes(len, off, r1Lit, 0)
    {
      hide Coded, Inflate.CopyMatch, LengthBytes, Extra;
      ghost var w := out;
      if len == 2 {
        var x := off - 1;
        out := out + [x % 4 * 4, x / 4];
      } else if len <= M2_MAX_LEN && off <= M2_MAX_OFFSET {
        var x := off - 1;
        out := out + [(len - 1) * 32 + x % 8 * 4, x / 8];
      } else if len == M2_MIN_LEN && off <= MX_MAX_OFFSET && r1Lit >= 4 {
        var x := off - 1 - M2_MAX_OFFSET;
        out := out + [x % 4 * 4, x / 4];
      } else if off <= M3_MAX_OFFSET {
        var x := off - 1;
        PutLength(M3_MARKER, M3_MAX_LEN, len);
        out := out + [x % 64 * 4, x / 64 % 256];
        assert out == w + (LengthBytes(M3_MARKER, M3_MAX_LEN, len) + Distance(x, 0));
      } else {
        var x := off - 0x4000;
        var k := x / 0x4000 * 8;
        PutLength(M4_MARKER + k, M4_MAX_LEN, len);
        out := out + [x % 64 * 4, x / 64 % 256];
        assert out == w + (LengthBytes(M4_MARKER + k, M4_MAX_LEN, len) + Distance(x, 0));
      }
      tail := Tail(w, dec, r1Lit, len, off);
      dec := Inflate.CopyMatch(dec, len, off);
    }

    /** STORE_RUN: literals at the start, in the match before them, or as a run of their own. */
    method StoreRun(lits: seq<byte>)
      requires Written(tail, out, dec) && lits != []
      modifies this`out, this`dec
      ensures Behind(out, |lits|, dec) && dec == old(dec) + lits
    {
      hide Coded, MatchLast, Extra;
      var t := |lits|;
      ghost var w := out;
      WrittenBehind(tail, out, dec);
      if out == [] && t <= 238 {
        out := out + [17 + t];
        FirstCoded(lits);
        FirstDecoded(tail, w, dec, lits);
        assert out == [17 + t];
      } else if t <= 3 {
        FewBehind(tail, out, dec, lits);
        out := out[|out| - 2 := out[|out| - 2] + t];
      } else if t <= 18 {
        RunCoded(out, dec, lits);
        out := out + [t - 3];
        assert out == w + RunLength(t);
      } else {
        RunCoded(out, dec, lits);
        out := out + [0];
        PutExtra(t - 18);
        assert out == w + RunLength(t);
      }
      assert Behind(out + lits, t, dec + lits);
      out := out + lits;
      dec := dec + lits;
    }

    /** code_run. */
    method CodeRun(lits: seq<byte>)
      requires Written(tail, out, dec)
      modifies this`out, this`dec, this`r1Lit
      ensures r1Lit == |lits| && Behind(out, r1Lit, dec) && dec == old(dec) + lits
    {
      hide Coded, MatchLast;
      if lits != [] {
        StoreRun(lits);
      } else {
        WrittenBehind(tail, out, dec);
      }
      r1Lit := |lits|;
    }

    // ---------- finding matches ----------

    /** The dictionary only offers matches inside the input and within its own size. */
    ghost predicate Usable(len: nat, off: nat)
      reads this`bp
    {
      len <= SWD_F && off <= M4_MAX_OFFSET && Deflate.Repeats(input, bp, off, len)
    }

    ghost predicate Found()
      reads this`bp, this`mLen, this`mOff, this`bestOff
    {
      && (mLen >= 2 ==> Usable(mLen, mOff)) && |bestOff| == SWD_BEST_OFF
      && forall i | 2 <= i < SWD_BEST_OFF :: bestOff[i] != 0 ==> Usable(i, bestOff[i])
    }

    /** How many bytes agree with those off before, up to most. */
    method Compare(off: nat, most: nat) returns (len: nat)
      requires 1 <= off <= bp && bp + most <= |input|
      ensures len <= most && Deflate.Repeats(input, bp, off, len)
      ensures len < most ==> input[bp + len] != input[bp + len - off]
    {
      len := 0;
      while len < most && input[bp + len] == input[bp + len - off]
        invariant len <= most && Deflate.Repeats(input, bp, off, len)
      {
        assert SameByte(input, bp - off, bp, len);
        len := len + 1;
      }
    }

    /** For each short length, where a match of that length was met, if one was. */
    method NoteBest(most: nat)
      requires |bestOff| == SWD_BEST_OFF && bp + most <= |input|
      modifies this`bestOff
      ensures |bestOff| == SWD_BEST_OFF && forall i | 2 <= i < SWD_BEST_OFF :: bestOff[i] != 0 ==> Usable(i, bestOff[i])
    {
      var i := 0;
      while i < SWD_BEST_OFF
        invariant i <= SWD_BEST_OFF == |bestOff|
        invariant forall k | 2 <= k < i :: bestOff[k] != 0 ==> Usable(k, bestOff[k])
      {
        var off: nat := *;
        var len := 0;
        if 1 <= off <= bp && off <= M4_MAX_OFFSET && i <= most { len := Compare(off, i); }
        bestOff := bestOff[i := if len == i && i >= 2 then off else 0];
        i := i + 1;
      }
    }

    /** find_match: goes on to the next position to be coded. What the dictionary offers there is left open. */
    method FindMatch(thisLen: nat, skip: nat)
      requires |bestOff| == SWD_BEST_OFF && skip <= thisLen && (skip == 0 ==> thisLen <= 1)
      requires next + (if skip > 0 then thisLen - skip else 0) <= |input|
      modifies this`mLen, this`mOff, this`bp, this`next, this`bestOff
      ensures bp == old(next) + (if skip > 0 then thisLen - skip else 0) && next == bp + 1 && Found()
    {
      if skip > 0 { next := next + (thisLen - skip); }
      bp := next;
      var off: nat := *;
      mLen, mOff := 1, 0;
      var most := if |input| - bp < SWD_F then |input| - bp else SWD_F;
      if 1 <= off <= bp && off <= M4_MAX_OFFSET {
        mLen := Compare(off, most);
        mOff := off;
      }
      NoteBest(most);
      next := next + 1;
    }

    /** better_match: a match a little shorter that takes fewer bytes to code, where there is one. */
    method BetterMatch(len: nat, off: nat) returns (l: nat, o: nat)
      requires Found() && len >= 2 && Usable(len, off)
      ensures Usable(l, o)
      ensures (l, o) == (len, off) || (Cheaper(l, o, len, off) && len - 2 <= l < SWD_BEST_OFF && o == bestOff[l])
      ensures l == len ==>
                && !(4 <= len <= 9 && off > 0x800 && 1 <= bestOff[len - 1] <= 0x800)
                && !(len == 10 && off > 0x4000 && 1 <= bestOff[8] <= 0x800)
                && !(10 <= len <= 34 && off > 0x4000 && 1 <= bestOff[len - 1] <= 0x4000)
    {
      hide MatchBytes;
      l, o := len, off;
      if len <= M2_MIN_LEN || off <= M2_MAX_OFFSET {
      } else if M2_MIN_LEN + 1 <= len <= M2_MAX_LEN + 1 && 0 != bestOff[len - 1] <= M2_MAX_OFFSET {
        l := len - 1;
        o := bestOff[l];
        NearSize(l, o);
        FarSize(len, off);
      } else if off > M3_MAX_OFFSET && M4_MAX_LEN + 1 <= len <= M2_MAX_LEN + 2
                && 0 != bestOff[len - 2] <= M2_MAX_OFFSET {
        l := len - 2;
        o := bestOff[l];
        NearSize(l, o);
        FarSize(len, off);
      } else if off > M3_MAX_OFFSET && M4_MAX_LEN + 1 <= len <= M3_MAX_LEN + 1
                && 0 != bestOff[len - 1] <= M3_MAX_OFFSET {
        l := len - 1;
        o := bestOff[l];
        FarSize(len, off);
        MiddleSize(l, o);
      }
    }

    // ---------- the run of the compressor ----------

    /** How far the dictionary sees. */
    function Look(): (n: nat)
      reads this`bp
      requires bp <= |input|
    {
      if |input| - bp <= SWD_F then |input| - bp else SWD_F + 1
    }

    /** What was written decodes to the input before lit literals not yet written and ahead bytes more. */
    ghost predicate Waiting(lit: nat, ahead: nat)
      reads this
    {
      ahead + lit <= bp <= |input| && Written(tail, out, dec) && dec == input[..bp - ahead - lit]
    }

    /** The literals waiting and n bytes of the match found ahead positions before. */
    method WriteMatch(lit: nat, ahead: nat, n: nat, off: nat)
      requires Waiting(lit, ahead) && Codable(n, off, lit) && Deflate.Repeats(input, bp - ahead, off, n)
      modifies this`out, this`dec, this`tail, this`r1Lit
      ensures Written(tail, out, dec) && bp - ahead + n <= |input| && dec == input[..bp - ahead + n]
      ensures Ends(tail, lit, n, off)
    {
      hide Written, Codable, Coded, MatchBytes, Deflate.Repeats;
      CodeRun(input[bp - ahead - lit..bp - ahead]);
      assert dec == input[..bp - ahead];
      Deflate.CopyIsInput(input, bp - ahead, off, n);
      Deflate.RepeatsBounds(input, bp - ahead, off, n);
      CodeMatch(n, off);
    }

    /** The match can be coded, and is not one of three bytes too far away behind four literals or more, nor, as long as
        nothing is written, one without literals before it or of two bytes. */
    predicate Acceptable(lit: nat)
      reads this`mLen, this`mOff, this`out
    {
      && Codable(mLen, mOff, lit) && !(mLen == 3 && mOff > MX_MAX_OFFSET && lit >= 4)
      && (out == [] ==> lit > 0 && mLen > 2)
    }

    /** Whether the match found is coded behind lit literals; else its first byte becomes one more. */
    method Accepted(lit: nat) returns (ok: bool)
      requires Found() && Waiting(lit, 0)
      ensures ok == Acceptable(lit)
    {
      ok := !(mLen < 2 || (mLen == 2 && (mOff > M1_MAX_OFFSET || lit == 0 || lit >= 4)) || (mLen == 2 && out == [])
              || (out == [] && lit == 0));
      if ok && mLen == M2_MIN_LEN && mOff > MX_MAX_OFFSET && lit >= 4 { ok := false; }
    }

    /** A match n bytes further on is preferred: those bytes become literals, or the beginning of the match passed over
        is written. */
    ghost predicate Preferred(before: seq<byte>, lit: nat, n: int, off: nat, lit': nat)
      reads this`out, this`tail
    {
      1 <= n <= 2 && ((out == before && lit' == lit + n) || (lit' == 0 && Ends(tail, lit, n, off)))
    }

    /** Goes on by one position: whether what is found there is preferred to the match passed over, and whether the n
        bytes of that match so far can be coded as a match. */
    method Preferable(lit: nat, n: nat, len: nat, off: nat) returns (better: bool, codable: bool)
      requires |bestOff| == SWD_BEST_OFF && next <= |input| && off >= 1 && len >= 2
      modifies this`mLen, this`mOff, this`bp, this`next, this`bestOff
      ensures Found() && bp == old(next) && next == bp + 1
      ensures (better ==> mLen >= len) && (codable ==> better && Codable(n, off, lit))
    {
      hide Codable, MatchBytes, Deflate.Repeats;
      better, codable := false, false;
      FindMatch(1, 0);
      if mLen < len || (mLen == len && mOff >= off) { return; }
      if useBestOff { mLen, mOff := BetterMatch(mLen, mOff); }
      Deflate.RepeatsBounds(input, bp, mOff, mLen);
      var l2 := LenOfCodedMatch(mLen, mOff, lit + n);
      if l2 < 0 { return; }
      var l3 := -1;
      if out != [] { l3 := LenOfCodedMatch(n, off, lit); }
      var gain: int := *;
      if gain < 0 { gain := 0; }
      return mLen >= len + gain, mLen >= len + gain && l3 > 0;
    }

    /** What one more position offers, and whether it was preferred to the match found ahead positions before. */
    method LookOn(lit: nat, ahead: nat, len: nat, off: nat) returns (done: bool, lit': nat)
      requires Waiting(lit, ahead) && bp < |input| && |bestOff| == SWD_BEST_OFF && next == bp + 1
      requires len >= 2 && ahead <= 1 && ahead + 1 < len && 1 <= off && Deflate.Repeats(input, bp - ahead, off, len)
      modifies this
      ensures Found() && next == bp + 1 && bp == old(bp) + 1
      ensures if done then Waiting(lit', 0) && mLen >= len && Preferred(old(out), lit, ahead + 1, off, lit')
              else Waiting(lit, ahead + 1) && out == old(out)
    {
      hide Codable, Written, Coded, MatchBytes, Deflate.Repeats;
      done, lit' := false, lit;
      var better, codable := Preferable(lit, ahead + 1, len, off);
      if !better { return; }
      if codable {
        ShorterRepeats(input, bp - ahead - 1, off, ahead + 1, len);
        WriteMatch(lit, ahead + 1, ahead + 1, off);
        return true, 0;
      }
      return true, lit + ahead + 1;
    }

    /** Looks at up to two positions further on; done when a match there was preferred. */
    method LookAhead(lit: nat, len: nat, off: nat, maxLazy: nat) returns (ahead: nat, done: bool, lit': nat)
      requires Found() && Waiting(lit, 0) && next == bp + 1 && bp < |input|
      requires len >= 2 && Usable(len, off) && Codable(len, off, lit)
      modifies this
      ensures Found() && next == bp + 1 && bp == old(bp) + ahead < |input|
      ensures if done then Waiting(lit', 0) && mLen >= len && Preferred(old(out), lit, ahead, off, lit')
              else Waiting(lit, ahead) && ahead < len
    {
      hide Codable, Written, MatchBytes;
      ahead, done, lit' := 0, false, lit;
      var maxAhead: int := 0;
      if len < maxLazy {
        var l1 := LenOfCodedMatch(len, off, lit);
        SizeBound(len, off, lit);
        maxAhead := if l1 - 1 < 2 then l1 - 1 else 2;
      }
      while ahead < maxAhead && Look() > len
        invariant Found() && next == bp + 1 && bp == old(bp) + ahead < |input| && ahead <= maxAhead && ahead < len
        invariant Waiting(lit, ahead) && Deflate.Repeats(input, bp - ahead, off, len) && out == old(out)
      {
        done, lit' := LookOn(lit, ahead, len, off);
        ahead := ahead + 1;
        if done { return; }
      }
    }

    /** The match found, or the cheaper one for it, was written whole, or a later one was preferred to it. */
    ghost predicate Taken(lit: nat, lit': nat, later: bool, bp0: nat, mLen0: nat, mOff0: nat, out0: seq<byte>)
      reads this`bp, this`mLen, this`out, this`tail
    {
      exists len: nat, off: nat :: Choice(len, off, mLen0, mOff0)
        && if later then mLen >= len && Preferred(out0, lit, bp - bp0, off, lit')
           else Ends(tail, lit, len, off) && lit' == 0 && bp == bp0 + len
    }

    ghost predicate Choice(len: nat, off: nat, mLen0: nat, mOff0: nat)
    {
      (len == mLen0 && off == mOff0) || (useBestOff && Cheaper(len, off, mLen0, mOff0))
    }

    /** A match accepted: a later one is preferred, or this one is written, with the literals before it. */
    method TakeMatch(lit: nat, maxLazy: nat) returns (lit': nat, later: bool)
      requires Found() && Waiting(lit, 0) && next == bp + 1 && bp < |input|
      requires Codable(mLen, mOff, lit)
      modifies this
      ensures Found() && Waiting(lit', 0) && next == bp + 1 && old(bp) < bp
      ensures Taken(lit, lit', later, old(bp), old(mLen), old(mOff), old(out))
    {
      hide Codable, Written, MatchBytes, Coded, Deflate.Repeats, Cheaper;
      CodableLonger(mLen, mOff, lit);
      Deflate.RepeatsBounds(input, bp, mOff, mLen);
      var len, off := mLen, mOff;
      if useBestOff {
        len, off := BetterMatch(len, off);
        if len != mLen || off != mOff { CheaperCodable(len, off, mLen, mOff, lit); }
      }
      Deflate.RepeatsBounds(input, bp, off, len);
      var ahead;
      ahead, later, lit' := LookAhead(lit, len, off, maxLazy);
      assert Choice(len, off, old(mLen), old(mOff));
      if later { return; }
      WriteMatch(lit, ahead, len, off);
      FindMatch(len, 1 + ahead);
      lit' := 0;
    }

    /** One round of the loop: a literal more, or a match, or a later one is preferred. */
    method Round(lit: nat, maxLazy: nat) returns (lit': nat, ghost ok: bool, ghost later: bool)
      requires Found() && Waiting(lit, 0) && next == bp + 1 && bp < |input|
      modifies this
      ensures Found() && Waiting(lit', 0) && next == bp + 1 && old(bp) < bp
      ensures ok == old(Acceptable(lit))
      ensures if ok then Taken(lit, lit', later, old(bp), old(mLen), old(mOff), old(out))
              else lit' == lit + 1 && bp == old(bp) + 1 && out == old(out)
    {
      hide Written, Codable, MatchBytes, Coded, Taken;
      var accepted := Accepted(lit);
      ok, later := accepted, false;
      if accepted {
        lit', later := TakeMatch(lit, maxLazy);
      } else {
        lit' := lit + 1;
        FindMatch(1, 0);
      }
    }

    /** The loop of lzo1x_999_compress_internal: the stream written decodes to the input. */
    method Compress(maxLazy: nat)
      requires next == 0 && |bestOff| == SWD_BEST_OFF && Written(tail, out, dec) && dec == []
      modifies this
      ensures Decodes(out, input, |out|)
    {
      hide Written, Codable, MatchBytes, Coded, Decodes;
      FindMatch(0, 0);
      var lit := 0;
      while Look() > 0
        invariant Found() && Waiting(lit, 0) && next == bp + 1
        decreases |input| - bp
      {
        ghost var ok, later;
        lit, ok, later := Round(lit, maxLazy);
      }
      ghost var behind := lit;
      if lit > 0 { StoreRun(input[bp - lit..bp]); } else { WrittenBehind(tail, out, dec); }
      assert dec == input;
      Ending(out, behind, dec);
      out := out + EndMarker;
    }
  }

  lemma CodableLonger(len: nat, off: nat, lit: nat)
    requires Codable(len, off, lit)
    ensures len >= 2
  {
  }

  lemma CheaperCodable(l: nat, o: nat, len: nat, off: nat, lit: nat)
    requires Cheaper(l, o, len, off)
    ensures Codable(l, o, lit) && l >= 2
  {
  }

  lemma Ending(out: seq<byte>, n: nat, dec: seq<byte>)
    requires Behind(out, n, dec)
    ensures Decodes(out + EndMarker, dec, |out + EndMarker|)
  {
    hide Coded, Decodes;
    EndCoded(out, StateAfter(n), dec, out + EndMarker);
  }

  /** How far a match must reach for no later one to be looked for, and whether best_off is used, by level. */
  function Setting(level: nat): (nat, bool)
  {
    if level == 7 then (32, false) else if level == 8 then (128, true) else (SWD_F, true)
  }

  /** lzo1x_999_compress_level. */
  method CompressLevel(input: seq<byte>, level: nat) returns (r: Option<seq<byte>>)
    ensures r.None? <==> level < 7 || level > 9
    ensures r.Some? ==> Decodes(r.value, input, |r.value|)
  {
    if level < 7 || level > 9 { return None; }
    var c := new Compressor(input, Setting(level).1);
    c.Compress(Setting(level).0);
    return Some(c.out);
  }

  /** What lzop writes for a block: its bytes, or a shorter stream for them. */
  datatype Stored = Raw(bytes: seq<byte>) | Packed(bytes: seq<byte>)

  /** A block of lzop at the levels that optimise: its stream still decodes to the block, which is unchanged, and
      neither internal error occurs. */
  method PackBlock(b1: array<byte>, level: nat) returns (r: Option<Stored>)
    modifies b1
    ensures r.None? <==> level < 7 || level > 9
    ensures b1[..] == old(b1[..])
    ensures r.Some? && r.value.Raw? ==> r.value.bytes == old(b1[..])
    ensures r.Some? && r.value.Packed? ==>
              |r.value.bytes| < b1.Length && Decodes(r.value.bytes, old(b1[..]), |r.value.bytes|)
  {
    hide Decodes;
    var packed := CompressLevel(b1[..], level);
    if packed == None { return None; }
    var s := packed.value;
    if |s| >= b1.Length { return Some(Raw(b1[..])); }
    var b2 := new byte[|s|](i requires 0 <= i < |s| => s[i]);
    assert b2[..] == s;
    ghost var v := StreamOf(s, b1[..]);
    var o := new LzoOptimize.Optimizer(b2, b1);
    var code, n := o.Optimize(v);
    assert code == LzoOptimize.Ok && n == b1.Length;
    assert b1[..] == b1[..n];
    return Some(Packed(b2[..]));
  }

  ghost function StreamOf(s: seq<byte>, out: seq<byte>): (v: LzoOptimize.Stream)
    requires Decodes(s, out, |s|)
    ensures LzoOptimize.Valid(v) && v.bytes == s && v.result == out && v.end == |s|
  {
    var n: nat :| Run(s, n) == Some(Finished(|s|, out));
    LzoOptimize.Stream(s, n, |s|, out)
  }

  /** Fewer bytes of the same match. */
  lemma ShorterRepeats(input: seq<byte>, p: nat, d: nat, n: nat, len: nat)
    requires Deflate.Repeats(input, p, d, len) && n <= len
    ensures Deflate.Repeats(input, p, d, n)
  {
  }

  lemma SizeBound(len: nat, off: nat, lit: nat)
    requires Codable(len, off, lit)
    ensures |MatchBytes(len, off, lit, 0)| == 2 || (len >= 3 && |MatchBytes(len, off, lit, 0)| >= 3)
  {
  }

  lemma FirstDecoded(t: Tail, out: seq<byte>, dec: seq<byte>, lits: seq<byte>)
    requires Written(t, out, dec) && out == []
    ensures dec == [] && dec + lits == lits
  {
  }
}
