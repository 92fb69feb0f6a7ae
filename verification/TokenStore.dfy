/** The buffers in which ct_tally collects a block's literals and matches, and compress_block,
    which sends them. */
module TokenStore {
  import opened Bits
  import opened Canonical
  import opened BitOutput
  import opened Heap
  import opened CodeGen
  import opened TreeCoding
  import opened Tokens
  import opened Tables
  import Inflate

  const LIT_BUFSIZE := 0x2000
  const DIST_BUFSIZE := 0x2000

  /** What l_buf holds for a token: the literal, or the length less three. */
  ghost function LitByte(t: Token): int
  {
    if t.Literal? then t.b else t.len - MIN_MATCH
  }

  ghost function MatchFlags(tokens: seq<Token>): (f: seq<bool>)
    ensures |f| == |tokens|
  {
    seq(|tokens|, i requires 0 <= i < |tokens| => tokens[i].Match?)
  }

  /** The distances of the matches, each less one. */
  ghost function Dists(tokens: seq<Token>): (d: seq<int>)
    ensures |d| <= |tokens|
  {
    if tokens == [] then []
    else Dists(tokens[..|tokens| - 1]) + (var t := tokens[|tokens| - 1]; if t.Match? then [t.dist - 1] else [])
  }

  lemma DistsPush(tokens: seq<Token>, t: Token)
    ensures Dists(tokens + [t]) == Dists(tokens) + (if t.Match? then [t.dist - 1] else [])
    ensures MatchFlags(tokens + [t]) == MatchFlags(tokens) + [t.Match?]
  {
    assert (tokens + [t])[..|tokens|] == tokens;
  }

  lemma {:induction false} DistsPrefix(tokens: seq<Token>, i: nat)
    requires i < |tokens|
    ensures Dists(tokens[..i]) <= Dists(tokens)
    ensures tokens[i].Match? ==> |Dists(tokens[..i])| < |Dists(tokens)|
                                 && Dists(tokens)[|Dists(tokens[..i])|] == tokens[i].dist - 1
    decreases |tokens|
  {
    var rest := tokens[..|tokens| - 1];
    if i < |rest| {
      DistsPrefix(rest, i);
      assert rest[..i] == tokens[..i];
    } else {
      assert rest == tokens[..i];
    }
  }

  /** One more flag, set or not, above the m pending ones. */
  lemma FlagPush(flags: nat, m: nat, isMatch: bool)
    requires flags < Pow2(m)
    ensures var f := if isMatch then Or(flags, Pow2(m)) else flags;
            f < Pow2(m + 1) && BitsOf(f, m + 1) == BitsOf(flags, m) + [isMatch]
  {
    hide Or;
    var b := if isMatch then 1 else 0;
    ShlOne(m);
    ShlZero(m);
    OrDisjoint(flags, 1, m);
    BitsOfJoin(flags, b, m, 1);
    assert BitsOf(b / 2, 0) == [];
    assert BitsOf(b, 1) == [isMatch];
  }

  /** Complete bytes of flags, and the pending ones below flagBit. */
  ghost predicate FlagsAre(bytes: seq<byte>, flags: nat, flagBit: nat, all: seq<bool>)
  {
    var m := |all| % 8;
    && |bytes| == |all| / 8 && flagBit == Pow2(m) && flags < Pow2(m)
    && BytesToBits(bytes) + BitsOf(flags, m) == all
  }

  lemma FlagsStep(bytes: seq<byte>, flags: nat, flagBit: nat, all: seq<bool>, isMatch: bool)
    requires FlagsAre(bytes, flags, flagBit, all)
    ensures var f := if isMatch then Or(flags, flagBit) else flags;
            && f < 0x100 && flagBit < 0x100
            && (if (|all| + 1) % 8 == 0 then FlagsAre(bytes + [f], 0, 1, all + [isMatch])
                else 2 * flagBit < 0x100 && FlagsAre(bytes, f, 2 * flagBit, all + [isMatch]))
  {
    hide Pow2;
    hide BitsOf, Or, BytesToBits;
    var m, f := |all| % 8, if isMatch then Or(flags, flagBit) else flags;
    Pow2Values();
    FlagPush(flags, m, isMatch);
    Pow2Monotone(m, 7);
    Pow2Monotone(m + 1, 8);
    if m == 7 { BytesToBitsPush(bytes, f); }
    assert BitsOf(0, 0) == [];
    assert BytesToBits(bytes) + (BitsOf(flags, m) + [isMatch]) == all + [isMatch];
    if m < 7 { assert Pow2(m + 1) == 2 * flagBit by { DoublePow2(m); } Pow2Monotone(m + 1, 7); }
  }

  lemma DoublePow2(m: nat)
    ensures Pow2(m + 1) == 2 * Pow2(m)
  {
  }

  class TokenBuffer {
    const lBuf: array<byte>
    const dBuf: array<ush>
    const flagBuf: array<byte>
    var lastLit: nat
    var lastDist: nat
    var lastFlags: nat
    var flags: byte
    var flagBit: byte
    ghost var tokens: seq<Token>

    ghost predicate Allocated()
    {
      lBuf.Length == LIT_BUFSIZE && dBuf.Length == DIST_BUFSIZE && flagBuf.Length == LIT_BUFSIZE / 8 && lBuf != flagBuf
    }

    /** The literals and lengths, and the distances, of the tokens. */
    ghost predicate Stored()
      reads this, lBuf, dBuf
    {
      && Allocated() && lastLit == |tokens| < LIT_BUFSIZE && lastDist == |Dists(tokens)|
      && (forall i | 0 <= i < |tokens| :: ValidToken(tokens[i]) && lBuf[i] == LitByte(tokens[i]))
      && (forall k | 0 <= k < lastDist :: dBuf[k] == Dists(tokens)[k])
    }

    /** The flags: complete bytes in the buffer, the rest still in `flags`. */
    ghost predicate Flagged()
      reads this, flagBuf
    {
      && Allocated() && lastLit == |tokens| < LIT_BUFSIZE && lastFlags <= flagBuf.Length
      && FlagsAre(flagBuf[..lastFlags], flags, flagBit, MatchFlags(tokens))
    }

    ghost predicate Valid()
      reads this, lBuf, dBuf, flagBuf
    {
      Stored() && Flagged()
    }

    constructor ()
      ensures Valid() && tokens == [] && fresh(lBuf) && fresh(dBuf) && fresh(flagBuf)
    {
      lBuf, dBuf, flagBuf := new byte[LIT_BUFSIZE](_ => 0), new ush[DIST_BUFSIZE](_ => 0),
        new byte[LIT_BUFSIZE / 8](_ => 0);
      lastLit, lastDist, lastFlags, flags, flagBit := 0, 0, 0, 0, 1;
      tokens := [];
    }

    /** Every token's flag is in the buffer. */
    ghost predicate Saved()
      reads this, flagBuf
    {
      lastLit == |tokens| < LIT_BUFSIZE && flagBuf.Length == LIT_BUFSIZE / 8
        && MatchFlags(tokens) <= BytesToBits(flagBuf[..])
    }

    /** Saves the flags of the last tokens, at the start of flush_block. */
    method SaveFlags()
      requires Valid()
      modifies flagBuf
      ensures Stored() && Saved()
    {
      hide BytesToBits, BitsOf, Pow2, MatchFlags;
      ghost var bytes := flagBuf[..lastFlags];
      FlagCount(bytes, flags, flagBit, MatchFlags(tokens));
      flagBuf[lastFlags] := flags;
      FlagsSaved(bytes, flags, flagBit, MatchFlags(tokens), flagBuf[..]);
    }

    /** The buffer part of init_block. */
    method Clear()
      requires Allocated()
      modifies this
      ensures Valid() && tokens == []
    {
      lastLit, lastDist, lastFlags := 0, 0, 0;
      flags := 0;
      flagBit := 1;
      tokens := [];
    }

    /** Records the flag of the token that was just stored at the end. */
    method PushFlag(isMatch: bool, ghost t: Token)
      requires Allocated() && lastLit == |tokens| + 1 < LIT_BUFSIZE && lastFlags <= flagBuf.Length
      requires isMatch == t.Match?
      requires FlagsAre(flagBuf[..lastFlags], flags, flagBit, MatchFlags(tokens))
      modifies this`flags, this`flagBit, this`lastFlags, this`tokens, flagBuf
      ensures tokens == old(tokens) + [t] && Flagged()
    {
      hide FlagsAre, MatchFlags, Or;
      assert lastFlags == |tokens| / 8 by { FlagCount(flagBuf[..lastFlags], flags, flagBit, MatchFlags(tokens)); }
      FlagsStep(flagBuf[..lastFlags], flags, flagBit, MatchFlags(tokens), isMatch);
      DistsPush(tokens, t);
      tokens := tokens + [t];
      if isMatch { flags := Or(flags, flagBit); }
      flagBit := flagBit * 2 % 0x100;
      if lastLit % 8 == 0 {
        flagBuf[lastFlags] := flags;
        assert flagBuf[..lastFlags + 1] == old(flagBuf[..lastFlags]) + [flags];
        lastFlags := lastFlags + 1;
        flags := 0;
        flagBit := 1;
      }
    }

    /** The buffer part of ct_tally. dist is 0 for a literal lc; otherwise lc is the length less three. */
    method Append(dist: nat, lc: byte)
      requires Valid() && lastLit + 1 < LIT_BUFSIZE && dist <= MAX_DIST
      modifies this, lBuf, dBuf, flagBuf
      ensures Valid()
      ensures tokens == old(tokens) + [if dist == 0 then Literal(lc) else Match(lc + MIN_MATCH, dist)]
    {
      hide BitsOf, Or, BytesToBits, MatchFlags, Pow2, Dists;
      ghost var t := if dist == 0 then Literal(lc) else Match(lc + MIN_MATCH, dist);
      DistsPush(tokens, t);
      lBuf[lastLit] := lc;
      lastLit := lastLit + 1;
      if dist != 0 {
        dBuf[lastDist] := dist - 1;
        lastDist := lastDist + 1;
      }
      PushFlag(dist != 0, t);
    }
  }

  lemma FlagCount(bytes: seq<byte>, flags: nat, flagBit: nat, all: seq<bool>)
    requires FlagsAre(bytes, flags, flagBit, all)
    ensures |bytes| == |all| / 8
  {
  }

  lemma FlagsSaved(bytes: seq<byte>, flags: byte, flagBit: nat, all: seq<bool>, buf: seq<byte>)
    requires FlagsAre(bytes, flags, flagBit, all) && |bytes| < |buf| && buf[..|bytes|] == bytes && buf[|bytes|] == flags
    ensures all <= BytesToBits(buf)
  {
    hide BitsOf, BytesToBits, Pow2;
    var m, n := |all| % 8, |bytes|;
    assert buf == bytes + [flags] + buf[n + 1..];
    BytesToBitsConcat(bytes + [flags], buf[n + 1..]);
    BytesToBitsPush(bytes, flags);
    BitsOfSplit(flags, m, 8 - m);
  }

  // ---------- compress_block ----------

  /** The trees have the codes of a token. */
  ghost predicate Sendable(ltree: seq<CtData>, dtree: seq<CtData>, ll: seq<nat>, dl: seq<nat>, t: Token)
  {
    && ValidToken(t) && Ready(ltree, ll, LitSymbol(t)) && (t.Match? ==> Ready(dtree, dl, DistCode(t.dist)))
  }

  lemma SendableEncodable(ltree: seq<CtData>, dtree: seq<CtData>, ll: seq<nat>, dl: seq<nat>, tokens: seq<Token>)
    requires forall i | 0 <= i < |tokens| :: Sendable(ltree, dtree, ll, dl, tokens[i])
    ensures AllEncodable(ll, dl, tokens)
  {
    hide Codeword, BitsOf, LitSymbol, DistCode;
    forall i | 0 <= i < |tokens|
      ensures Encodable(ll, dl, tokens[i])
    {
      assert Sendable(ltree, dtree, ll, dl, tokens[i]);
    }
  }

  /** The tables are not the output buffer. */
  ghost predicate Apart(out: BitWriter, tables: CodeTables)
  {
    tables.lengthCode != out.outbuf && tables.distCode != out.outbuf
  }

  lemma TableEntries(lengths: seq<byte>, dists: seq<byte>, baseLength: seq<nat>, baseDist: seq<nat>, lc: nat, dist: nat)
    requires LengthTable(lengths, baseLength) && DistTable(dists, baseDist) && lc < 0x100 && dist < 0x8000
    ensures lengths[lc] == LengthCode(lc + MIN_MATCH)
    ensures (if dist < 256 then dists[dist] else dists[256 + dist / 128]) == DistCode(dist + 1)
  {
    assert DCode(dists, dist) == DistCode(dist + 1);
  }

  /** Sends the extra bits of a length. */
  method SendLength(out: BitWriter, tables: CodeTables, lc: nat, code: nat)
    requires out.Valid() && tables.Valid() && lc < 0x100 && code == LengthCode(lc + MIN_MATCH)
    modifies out, out.outbuf
    ensures out.Valid() && out.Sent() == old(out.Sent()) + LengthBits(lc + MIN_MATCH)
  {
    hide BitsOf, Pow2, Inflate.LengthBase, Inflate.LengthExtra, ExtraLbits, DistTable, CodesFor, StaticDistances;
    hide LengthCode;
    TablesAgree();
    LengthFits(lc + MIN_MATCH);
    LengthExtraBound(code);
    var extra := ExtraLbits()[code];
    if extra != 0 {
      Pow2Values();
      Pow2Monotone(extra, 5);
      out.SendBits(lc - tables.baseLength[code], extra);
    } else {
      assert BitsOf(0, 0) == [];
    }
  }

  lemma LengthExtraBound(c: nat)
    requires c < LENGTH_CODES
    ensures Inflate.LengthExtra(c) <= 5 && (c == 28 ==> Inflate.LengthExtra(c) == 0)
    ensures Inflate.LengthExtra(c) == 0 ==> Pow2(Inflate.LengthExtra(c)) == 1
  {
  }

  /** Sends the extra bits of a distance; dist is the distance less one. */
  method SendDistance(out: BitWriter, tables: CodeTables, dist0: nat, code: nat)
    requires out.Valid() && tables.Valid() && dist0 < 0x8000 && code == DistCode(dist0 + 1)
    modifies out, out.outbuf
    ensures out.Valid() && out.Sent() == old(out.Sent()) + DistBits(dist0 + 1)
  {
    hide BitsOf, Pow2, Inflate.DistBase, Inflate.DistExtra, ExtraDbits, LengthTable, CodesFor, StaticDistances;
    hide DistCode;
    TablesAgree();
    DistFits(dist0 + 1);
    DistExtraBound(code);
    var extra := ExtraDbits()[code];
    Pow2Values();
    if extra != 0 {
      Pow2Monotone(extra, 13);
      out.SendBits(dist0 - tables.baseDist[code], extra);
    } else {
      assert BitsOf(0, 0) == [];
    }
  }

  lemma DistExtraBound(c: nat)
    requires c < D_CODES
    ensures Inflate.DistExtra(c) <= 13
    ensures Inflate.DistExtra(c) == 0 ==> Pow2(Inflate.DistExtra(c)) == 1
  {
  }

  /** Sends a match: lc is its length less three, dist its distance less one. */
  method SendMatch(out: BitWriter, tables: CodeTables, lc: byte, dist: nat, ltree: array<CtData>, dtree: array<CtData>,
                   ghost ll: seq<nat>, ghost dl: seq<nat>)
    requires out.Valid() && tables.Valid() && Apart(out, tables) && dist < 0x8000
    requires Sendable(ltree[..], dtree[..], ll, dl, Match(lc + MIN_MATCH, dist + 1))
    requires Encodable(ll, dl, Match(lc + MIN_MATCH, dist + 1))
    modifies out, out.outbuf
    ensures out.Valid() && out.Sent() == old(out.Sent()) + TokenBits(ll, dl, Match(lc + MIN_MATCH, dist + 1))
  {
    hide Codeword, BitsOf, LengthBits, DistBits, CodesFor, StaticDistances, LengthCode, DistCode, Ready, LengthTable;
    hide DistTable;
    TableEntries(tables.lengthCode[..], tables.distCode[..], tables.baseLength[..], tables.baseDist[..], lc, dist);
    var code: nat := tables.lengthCode[lc];
    SendCode(out, ltree, code + LITERALS + 1, ll);
    SendLength(out, tables, lc, code);
    code := if dist < 256 then tables.distCode[dist] else tables.distCode[256 + dist / 128];
    SendCode(out, dtree, code, dl);
    SendDistance(out, tables, dist, code);
    JoinFour(old(out.Sent()), Codeword(ll, LitSymbol(Match(lc + MIN_MATCH, dist + 1))), LengthBits(lc + MIN_MATCH),
             Codeword(dl, DistCode(dist + 1)), DistBits(dist + 1));
  }

  lemma JoinFour(s: seq<bool>, a: seq<bool>, b: seq<bool>, c: seq<bool>, d: seq<bool>)
    ensures s + a + b + c + d == s + (a + (b + (c + d)))
  {
  }

  lemma JoinTwo(s: seq<bool>, a: seq<bool>, b: seq<bool>)
    ensures s + a + b == s + (a + b)
  {
  }

  /** The pending flags are the low bits of `flag`. */
  ghost predicate FlagBits(flag: nat, left: nat, all: seq<bool>, lx: nat)
  {
    lx + left <= |all| && BitsOf(flag, left) == all[lx..lx + left]
  }

  lemma FlagNext(flag: nat, left: nat, all: seq<bool>, lx: nat)
    requires FlagBits(flag, left, all, lx) && left > 0
    ensures lx < |all| && all[lx] == (flag % 2 == 1) && FlagBits(flag / 2, left - 1, all, lx + 1)
  {
    var c := all[lx..lx + left];
    assert BitsOf(flag, left)[0] == c[0] && BitsOf(flag / 2, left - 1) == c[1..];
    assert c[1..] == all[lx + 1..lx + left];
  }

  lemma FlagLoad(buf: seq<byte>, fx: nat)
    requires fx < |buf|
    ensures FlagBits(buf[fx], 8, BytesToBits(buf), 8 * fx)
  {
    BytesToBitsAt(buf, fx);
  }

  lemma FlagsEmpty(flag: nat, all: seq<bool>, lx: nat)
    requires lx <= |all|
    ensures FlagBits(flag, 0, all, lx)
  {
  }

  /** The next token, as it lies in the buffers. */
  lemma NextToken(tokens: seq<Token>, all: seq<bool>, lx: nat)
    requires lx < |tokens| && MatchFlags(tokens) <= all
    ensures all[lx] == tokens[lx].Match?
    ensures tokens[..lx + 1] == tokens[..lx] + [tokens[lx]]
    ensures Dists(tokens[..lx + 1]) == Dists(tokens[..lx]) + (if tokens[lx].Match? then [tokens[lx].dist - 1] else [])
    ensures tokens[lx].Match? ==> |Dists(tokens[..lx])| < |Dists(tokens)|
                                  && Dists(tokens)[|Dists(tokens[..lx])|] == tokens[lx].dist - 1
  {
    assert MatchFlags(tokens)[lx] == all[lx];
    assert tokens[..lx + 1] == tokens[..lx] + [tokens[lx]];
    DistsPush(tokens[..lx], tokens[lx]);
    DistsPrefix(tokens, lx);
  }

  lemma NextBits(ll: seq<nat>, dl: seq<nat>, tokens: seq<Token>, lx: nat)
    requires AllEncodable(ll, dl, tokens) && lx < |tokens|
    ensures AllEncodable(ll, dl, tokens[..lx]) && AllEncodable(ll, dl, tokens[..lx + 1])
    ensures Encodable(ll, dl, tokens[lx])
    ensures TokensBits(ll, dl, tokens[..lx + 1]) == TokensBits(ll, dl, tokens[..lx]) + TokenBits(ll, dl, tokens[lx])
  {
    hide Encodable, TokenBits;
    assert tokens[..lx + 1][..lx] == tokens[..lx];
  }

  /** Sends one token: a literal, or a match with the given distance less one. */
  method SendToken(out: BitWriter, tables: CodeTables, isMatch: bool, lc: byte, dist: nat, ltree: array<CtData>,
                   dtree: array<CtData>,
                   ghost ll: seq<nat>, ghost dl: seq<nat>, ghost t: Token)
    requires out.Valid() && tables.Valid() && Apart(out, tables)
    requires Sendable(ltree[..], dtree[..], ll, dl, t) && Encodable(ll, dl, t)
    requires isMatch == t.Match? && lc == LitByte(t) && (isMatch ==> dist == t.dist - 1)
    modifies out, out.outbuf
    ensures out.Valid() && out.Sent() == old(out.Sent()) + TokenBits(ll, dl, t)
  {
    hide Codeword, BitsOf, LengthBits, DistBits, LengthCode, DistCode, Ready;
    if !isMatch {
      SendCode(out, ltree, lc, ll);
    } else {
      assert t == Match(lc + MIN_MATCH, dist + 1);
      SendMatch(out, tables, lc, dist, ltree, dtree, ll, dl);
    }
  }

  /** Sends the literals and matches of the block. */
  method SendTokens(out: BitWriter, tables: CodeTables, buf: TokenBuffer, ltree: array<CtData>, dtree: array<CtData>,
                    ghost ll: seq<nat>, ghost dl: seq<nat>)
    requires out.Valid() && tables.Valid() && buf.Stored() && buf.Saved()
    requires buf.lBuf != out.outbuf && buf.flagBuf != out.outbuf && Apart(out, tables)
    requires forall i | 0 <= i < |buf.tokens| :: Sendable(ltree[..], dtree[..], ll, dl, buf.tokens[i])
    requires AllEncodable(ll, dl, buf.tokens)
    modifies out, out.outbuf
    ensures out.Valid() && out.Sent() == old(out.Sent()) + TokensBits(ll, dl, buf.tokens)
  {
    hide Codeword, BitsOf, BytesToBits, TokenBits, TokensBits, Encodable, Sendable, FlagBits, MatchFlags, Dists;
    hide LitByte, Ready;
    hide CodeTables.Valid, Pow2, Or;
    ghost var tokens, all := buf.tokens, BytesToBits(buf.flagBuf[..]);
    var lx, dx, fx := 0, 0, 0;
    var flag: byte := 0;
    ghost var left: nat := 0;
    NothingYet(ll, dl, tokens);
    FlagsEmpty(flag, all, 0);
    if buf.lastLit != 0 {
      while true
        invariant out.Valid() && tables.Valid() && 0 <= lx < |tokens| && fx == (lx + 7) / 8 && left == 8 * fx - lx
        invariant dx == |Dists(tokens[..lx])| && AllEncodable(ll, dl, tokens[..lx])
        invariant FlagBits(flag, left, all, lx)
        invariant out.Sent() == old(out.Sent()) + TokensBits(ll, dl, tokens[..lx])
        decreases |tokens| - lx
      {
        if lx % 8 == 0 {
          FlagLoad(buf.flagBuf[..], fx);
          flag := buf.flagBuf[fx];
          fx := fx + 1;
          left := 8;
        }
        FlagNext(flag, left, all, lx);
        NextToken(tokens, all, lx);
        NextBits(ll, dl, tokens, lx);
        var lc := buf.lBuf[lx];
        var isMatch := flag % 2 == 1;
        var dist: nat := 0;
        if isMatch {
          dist := buf.dBuf[dx];
          dx := dx + 1;
        }
        SendToken(out, tables, isMatch, lc, dist, ltree, dtree, ll, dl, tokens[lx]);
        lx := lx + 1;
        flag := flag / 2;
        left := left - 1;
        if lx >= buf.lastLit { break; }
      }
      assert tokens[..lx] == tokens;
    }
  }

  /** Sends the block with the given trees. */
  method CompressBlock(out: BitWriter, tables: CodeTables, buf: TokenBuffer, ltree: array<CtData>, dtree: array<CtData>,
                       ghost ll: seq<nat>, ghost dl: seq<nat>)
    requires out.Valid() && tables.Valid() && buf.Stored() && buf.Saved()
    requires buf.lBuf != out.outbuf && buf.flagBuf != out.outbuf && Apart(out, tables)
    requires forall i | 0 <= i < |buf.tokens| :: Sendable(ltree[..], dtree[..], ll, dl, buf.tokens[i])
    requires Ready(ltree[..], ll, Inflate.END_OF_BLOCK) && AllEncodable(ll, dl, buf.tokens)
    modifies out, out.outbuf
    ensures out.Valid() && out.Sent() == old(out.Sent()) + BlockBits(ll, dl, buf.tokens)
  {
    hide Codeword, BitsOf, BytesToBits, TokensBits, Encodable, Sendable, MatchFlags, Dists, LitByte;
    hide LengthTable, DistTable, CodesFor, StaticDistances;
    SendTokens(out, tables, buf, ltree, dtree, ll, dl);
    SendCode(out, ltree, Inflate.END_OF_BLOCK, ll);
    JoinTwo(old(out.Sent()), TokensBits(ll, dl, buf.tokens), Codeword(ll, Inflate.END_OF_BLOCK));
  }

  lemma NothingYet(ll: seq<nat>, dl: seq<nat>, tokens: seq<Token>)
    ensures AllEncodable(ll, dl, tokens[..0]) && TokensBits(ll, dl, tokens[..0]) == [] && Dists(tokens[..0]) == []
    ensures tokens == [] ==> tokens[..0] == tokens
  {
  }
}
