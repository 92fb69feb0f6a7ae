/** How the compressor of lzop writes runs of literals and matches, against what the decoder reads. */
module LzoCoder {
  import opened Bits
  import opened LzoFormat
  import opened Options
  import Inflate

  const M2_MIN_LEN := 3
  const M2_MAX_LEN := 8
  const M3_MAX_LEN := 33
  const M4_MAX_LEN := 9
  const M1_MAX_OFFSET := 0x0400
  const M2_MAX_OFFSET := 0x0800
  const M3_MAX_OFFSET := 0x4000
  const M4_MAX_OFFSET := 0xbfff
  const MX_MAX_OFFSET := 0x0c00
  const M3_MARKER := 32
  const M4_MARKER := 16

  // ---------- the bytes of a match ----------

  /** A length above what the first byte can hold. */
  function Extra(n: nat): (s: seq<byte>)
    requires n >= 1
    ensures s != []
  {
    if n <= 255 then [n] else [0] + Extra(n - 255)
  }

  /** The two bytes of a far distance, with n literals behind the match; the second keeps 8 bits. */
  function Distance(off: nat, n: nat): (s: seq<byte>)
    requires n < 4
    ensures |s| == 2
  {
    [off % 64 * 4 + n, off / 64 % 256]
  }

  function LengthBytes(marker: nat, max: nat, len: nat): (s: seq<byte>)
    requires 2 <= max && marker + max < 258 && len >= 2
    ensures s != []
  {
    if len <= max then [marker + (len - 2)] else [marker] + Extra(len - max)
  }

  /** What may be coded behind r1 literals. */
  predicate Codable(len: nat, off: nat, r1: nat)
  {
    if len == 2 then 1 <= off <= M1_MAX_OFFSET && 1 <= r1 < 4 else len >= 3 && 1 <= off <= M4_MAX_OFFSET
  }

  /** A match with n literals behind it. */
  function MatchBytes(len: nat, off: nat, r1: nat, n: nat): (s: seq<byte>)
    requires Codable(len, off, r1) && n < 4
    ensures |s| >= 2
  {
    if len == 2 then [(off - 1) % 4 * 4 + n, (off - 1) / 4]
    else if len <= M2_MAX_LEN && off <= M2_MAX_OFFSET then [(len - 1) * 32 + (off - 1) % 8 * 4 + n, (off - 1) / 8]
    else if len == M2_MIN_LEN && off <= MX_MAX_OFFSET && r1 >= 4 then
      var x := off - 1 - M2_MAX_OFFSET;
      [x % 4 * 4 + n, x / 4]
    else if off <= M3_MAX_OFFSET then LengthBytes(M3_MARKER, M3_MAX_LEN, len) + Distance(off - 1, n)
    else
      var x := off - 0x4000;
      LengthBytes(M4_MARKER + x / 0x4000 * 8, M4_MAX_LEN, len) + Distance(x, n)
  }

  /** The state of the decoder behind n literals. */
  function StateAfter(n: nat): State
  {
    if n == 0 then Fresh else if n < 4 then AfterShort else AfterRun
  }

  // ---------- reading them ----------

  /** What follows the first n bytes of s begins with t. */
  ghost predicate Here(s: seq<byte>, n: nat, t: seq<byte>)
  {
    n + |t| <= |s| && s[n..n + |t|] == t
  }

  lemma HereAt(s: seq<byte>, n: nat, t: seq<byte>, k: nat)
    requires Here(s, n, t) && k < |t|
    ensures s[n + k] == t[k]
  {
    assert s[n..n + |t|][k] == t[k];
  }

  lemma HereParts(s: seq<byte>, n: nat, a: seq<byte>, b: seq<byte>)
    requires Here(s, n, a + b)
    ensures Here(s, n, a) && Here(s, n + |a|, b)
  {
    assert s[n..n + |a|] == s[n..n + |a + b|][..|a|];
    assert s[n + |a|..n + |a| + |b|] == s[n..n + |a + b|][|a|..];
  }

  lemma {:induction false} ExtraRead(s: seq<byte>, i: nat, n: nat, base: nat)
    requires n >= 1 && Here(s, i, Extra(n))
    ensures i <= |s| && Length(s, i, 0, base) == Some((base + n, i + |Extra(n)|))
    decreases n
  {
    HereAt(s, i, Extra(n), 0);
    if n > 255 {
      assert Extra(n) == [0] + Extra(n - 255);
      HereParts(s, i, [0], Extra(n - 255));
      ExtraRead(s, i + 1, n - 255, base);
      assert ZerosEnd(s, i) == ZerosEnd(s, i + 1);
    }
  }

  lemma LengthRead(s: seq<byte>, i: nat, marker: nat, max: nat, len: nat)
    requires 3 <= max && marker + max < 258 && len >= 3 && Here(s, i, LengthBytes(marker, max, len))
    ensures i < |s| && s[i] as nat == marker + (if len <= max then len - 2 else 0)
    ensures Length(s, i + 1, if len <= max then len - 2 else 0, max - 2) ==
            Some((len - 2, i + |LengthBytes(marker, max, len)|))
  {
    hide Length;
    HereAt(s, i, LengthBytes(marker, max, len), 0);
    if len <= max {
      ShortLength(s, i + 1, len - 2, max - 2);
    } else {
      HereParts(s, i, [marker], Extra(len - max));
      ExtraRead(s, i + 1, len - max, max - 2);
    }
  }

  lemma ShortLength(s: seq<byte>, i: nat, t: nat, base: nat)
    requires i <= |s| && t >= 1
    ensures Length(s, i, t, base) == Some((t, i))
  {
  }

  lemma DistanceRead(s: seq<byte>, j: nat, len: nat, off: nat, n: nat, base: nat, veryFar: bool)
    requires n < 4 && Here(s, j, Distance(off, n))
    ensures FarMatch(s, Some((len, j)), base, veryFar) ==
            var o := base + off % 64 + 64 * (off / 64 % 256);
            if veryFar && o == 0 then Some(End(j + 2))
            else Some(Copy(if veryFar then o + 0x4000 else o, len + 2, j + 2, n))
  {
    HereAt(s, j, Distance(off, n), 0);
    HereAt(s, j, Distance(off, n), 1);
  }

  // ---------- the bytes of each kind of match ----------

  lemma ShortByte(x: nat, n: nat)
    requires n < 4
    ensures var v := x % 4 * 4 + n; v < 16 && v / 4 == x % 4 && v % 4 == n && v / 4 + 4 * (x / 4) == x
  {
  }

  lemma NearByte(len: nat, x: nat, n: nat)
    requires 3 <= len <= 8 && n < 4
    ensures var v := (len - 1) * 32 + x % 8 * 4 + n;
            64 <= v < 0x100 && v / 4 % 8 == x % 8 && v / 32 + 1 == len && v % 4 == n && x % 8 + 8 * (x / 8) == x
  {
    var v := (len - 1) * 32 + x % 8 * 4 + n;
    assert v / 4 == (len - 1) * 8 + x % 8;
    assert v / 32 == len - 1;
  }

  lemma VeryFarByte(h: nat, k: nat)
    requires h < 2 && k < 8
    ensures var v := 16 + h * 8 + k; 16 <= v < 32 && v % 8 == k && v / 8 % 2 == h
  {
    assert (16 + h * 8 + k) / 8 == 2 + h;
  }

  lemma FarParts(x: nat)
    requires x < 0x4000
    ensures x % 64 + 64 * (x / 64 % 256) == x
  {
  }

  lemma VeryFarParts(x: nat)
    requires x < 0x8000
    ensures x / 0x4000 < 2 && x / 0x4000 * 0x4000 + x % 64 + 64 * (x / 64 % 256) == x
  {
    assert x / 64 / 256 == x / 0x4000;
    assert x / 64 == x / 0x4000 * 256 + x / 64 % 256;
  }

  /** A match of two bytes after few literals. */
  lemma ShortRead(s: seq<byte>, i: nat, x: nat, n: nat)
    requires x < M1_MAX_OFFSET && n < 4 && Here(s, i, [x % 4 * 4 + n, x / 4])
    ensures ReadMatch(s, AfterShort, i) == Some(Copy(x + 1, 2, i + 2, n))
  {
    hide Length, FarMatch;
    HereAt(s, i, [x % 4 * 4 + n, x / 4], 0);
    HereAt(s, i, [x % 4 * 4 + n, x / 4], 1);
    ShortByte(x, n);
  }

  /** A match of three bytes after many literals. */
  lemma ThreeRead(s: seq<byte>, i: nat, x: nat, n: nat)
    requires x < M1_MAX_OFFSET && n < 4 && Here(s, i, [x % 4 * 4 + n, x / 4])
    ensures ReadMatch(s, AfterRun, i) == Some(Copy(x + 1 + M2_MAX_OFFSET, 3, i + 2, n))
  {
    hide Length, FarMatch;
    HereAt(s, i, [x % 4 * 4 + n, x / 4], 0);
    HereAt(s, i, [x % 4 * 4 + n, x / 4], 1);
    ShortByte(x, n);
  }

  lemma NearRead(s: seq<byte>, st: State, i: nat, len: nat, x: nat, n: nat)
    requires 3 <= len <= M2_MAX_LEN && x < M2_MAX_OFFSET && n < 4
    requires Here(s, i, [(len - 1) * 32 + x % 8 * 4 + n, x / 8])
    ensures ReadMatch(s, st, i) == Some(Copy(x + 1, len, i + 2, n))
  {
    hide Length, FarMatch;
    NearByte(len, x, n);
    HereAt(s, i, [(len - 1) * 32 + x % 8 * 4 + n, x / 8], 0);
    HereAt(s, i, [(len - 1) * 32 + x % 8 * 4 + n, x / 8], 1);
  }

  lemma FarRead(s: seq<byte>, st: State, i: nat, len: nat, x: nat, n: nat)
    requires len >= 3 && x < M3_MAX_OFFSET && n < 4
    requires Here(s, i, LengthBytes(M3_MARKER, M3_MAX_LEN, len) + Distance(x, n))
    ensures ReadMatch(s, st, i) == Some(Copy(x + 1, len, i + |LengthBytes(M3_MARKER, M3_MAX_LEN, len)| + 2, n))
  {
    hide Length, FarMatch, LengthBytes, Here, Distance;
    var head := LengthBytes(M3_MARKER, M3_MAX_LEN, len);
    FarHere(s, i, head, Distance(x, n));
    LengthRead(s, i, M3_MARKER, M3_MAX_LEN, len);
    DistanceRead(s, i + |head|, len - 2, x, n, 1, false);
    FarParts(x);
  }

  lemma VeryFarRead(s: seq<byte>, st: State, i: nat, len: nat, x: nat, n: nat)
    requires len >= 3 && 1 <= x < 0x8000 && n < 4
    requires Here(s, i, LengthBytes(M4_MARKER + x / 0x4000 * 8, M4_MAX_LEN, len) + Distance(x, n))
    ensures ReadMatch(s, st, i) ==
            Some(Copy(x + 0x4000, len, i + |LengthBytes(M4_MARKER + x / 0x4000 * 8, M4_MAX_LEN, len)| + 2, n))
  {
    hide Length, FarMatch, LengthBytes, Here, Distance;
    var head := LengthBytes(M4_MARKER + x / 0x4000 * 8, M4_MAX_LEN, len);
    FarHere(s, i, head, Distance(x, n));
    LengthRead(s, i, M4_MARKER + x / 0x4000 * 8, M4_MAX_LEN, len);
    VeryFarByte(x / 0x4000, if len <= M4_MAX_LEN then len - 2 else 0);
    DistanceRead(s, i + |head|, len - 2, x, n, x / 0x4000 * 0x4000, true);
    VeryFarParts(x);
  }

  /** The number of literals behind a match is added to the last byte but one, where there was none. */
  lemma CountAdded(len: nat, off: nat, r1: nat, n: nat)
    requires Codable(len, off, r1) && n < 4
    ensures var s := MatchBytes(len, off, r1, 0);
            s[|s| - 2] % 4 == 0 && MatchBytes(len, off, r1, n) == s[|s| - 2 := s[|s| - 2] + n]
  {
    hide LengthBytes, Distance;
    if len == 2 {
      ShortByte(off - 1, 0);
    } else if len <= M2_MAX_LEN && off <= M2_MAX_OFFSET {
      NearByte(len, off - 1, 0);
    } else if len == M2_MIN_LEN && off <= MX_MAX_OFFSET && r1 >= 4 {
      ShortByte(off - 1 - M2_MAX_OFFSET, 0);
    } else if off <= M3_MAX_OFFSET {
      DistanceAdded(LengthBytes(M3_MARKER, M3_MAX_LEN, len), off - 1, n);
    } else {
      var x := off - 0x4000;
      DistanceAdded(LengthBytes(M4_MARKER + x / 0x4000 * 8, M4_MAX_LEN, len), x, n);
    }
  }

  lemma DistanceAdded(head: seq<byte>, x: nat, n: nat)
    requires n < 4
    ensures var s := head + Distance(x, 0);
            s[|s| - 2] % 4 == 0 && head + Distance(x, n) == s[|s| - 2 := s[|s| - 2] + n]
  {
  }

  /** A match is read as what it is, with the literals there are behind it. */
  lemma MatchRead(s: seq<byte>, i: nat, len: nat, off: nat, r1: nat, n: nat)
    requires Codable(len, off, r1) && n < 4 && Here(s, i, MatchBytes(len, off, r1, n))
    ensures ReadMatch(s, StateAfter(r1), i) == Some(Copy(off, len, i + |MatchBytes(len, off, r1, n)|, n))
  {
    hide Length, FarMatch, LengthBytes, Here, ReadMatch, Distance;
    if len == 2 {
      ShortRead(s, i, off - 1, n);
    } else if len <= M2_MAX_LEN && off <= M2_MAX_OFFSET {
      NearRead(s, StateAfter(r1), i, len, off - 1, n);
    } else if len == M2_MIN_LEN && off <= MX_MAX_OFFSET && r1 >= 4 {
      ThreeRead(s, i, off - 1 - M2_MAX_OFFSET, n);
    } else if off <= M3_MAX_OFFSET {
      FarRead(s, StateAfter(r1), i, len, off - 1, n);
    } else {
      VeryFarRead(s, StateAfter(r1), i, len, off - 0x4000, n);
    }
  }

  lemma FarHere(s: seq<byte>, i: nat, head: seq<byte>, d: seq<byte>)
    requires Here(s, i, head + d) && |head| >= 1 && |d| >= 1
    ensures Here(s, i, head) && Here(s, i + |head|, d) && i + 1 < |s|
  {
    HereParts(s, i, head, d);
  }

  // ---------- what a beginning of a stream leads to ----------

  ghost predicate Starts(s: seq<byte>, w: seq<byte>)
  {
    |w| <= |s| && s[..|w|] == w
  }

  /** Every stream that begins with w is read up to c; a stream may only begin with an instruction if its byte fits. */
  ghost predicate Coded(w: seq<byte>, c: Config)
  {
    && c.pos == |w|
    && if w == [] then c == At(Fresh, 0, []) else forall s | Starts(s, w) :: Reach(s, c)
  }

  lemma StartsHere(s: seq<byte>, w: seq<byte>, t: seq<byte>)
    requires Starts(s, w + t)
    ensures Starts(s, w) && Here(s, |w|, t)
  {
    assert s[..|w|] == s[..|w + t|][..|w|];
    assert s[|w|..|w| + |t|] == s[..|w + t|][|w|..];
  }

  lemma CodedHere(s: seq<byte>, w: seq<byte>, c: Config)
    requires Coded(w, c) && Starts(s, w) && |w| < |s| && (w == [] ==> s[0] <= 17)
    ensures Reach(s, c)
  {
    if w == [] { assert Run(s, 0) == Some(c); }
  }

  /** Literals behind a place. */
  lemma LiteralsHere(s: seq<byte>, pos: nat, lits: seq<byte>, o: seq<byte>, st: State)
    requires Here(s, pos, lits)
    ensures Literals(s, pos, |lits|, o, st) == Some(At(st, pos + |lits|, o + lits))
  {
  }

  lemma MatchReached(s: seq<byte>, w: seq<byte>, o: seq<byte>, len: nat, off: nat, r1: nat, lits: seq<byte>)
    requires |lits| < 4 && Codable(len, off, r1) && 1 <= off <= |o|
    requires Reach(s, At(StateAfter(r1), |w|, o)) && Here(s, |w|, MatchBytes(len, off, r1, |lits|))
    requires Here(s, |w + MatchBytes(len, off, r1, |lits|)|, lits)
    ensures Reach(s, At(StateAfter(|lits|), |w + MatchBytes(len, off, r1, |lits|) + lits|,
                        Inflate.CopyMatch(o, len, off) + lits))
  {
    hide ReadMatch, Inflate.CopyMatch, MatchBytes, Here, Codable, Reach, Literals, Length;
    var c, next := At(StateAfter(r1), |w|, o), |w + MatchBytes(len, off, r1, |lits|)|;
    MatchRead(s, |w|, len, off, r1, |lits|);
    NotARun(s, StateAfter(r1), |w|);
    ReachNext(s, c);
    var d := Inflate.CopyMatch(o, len, off);
    if lits == [] {
      assert d + lits == d;
    } else {
      LiteralsHere(s, next, lits, d, AfterShort);
      ReachNext(s, Pending(|lits|, next, d));
    }
  }

  lemma NotARun(s: seq<byte>, st: State, i: nat)
    requires ReadMatch(s, st, i).Some?
    ensures i + 2 <= |s| && !(s[i] < 16 && st == Fresh)
  {
    hide FarMatch, Length;
  }

  /** A match and up to three literals behind it. */
  lemma MatchCoded(w: seq<byte>, o: seq<byte>, len: nat, off: nat, r1: nat, lits: seq<byte>)
    requires |lits| < 4 && Codable(len, off, r1) && 1 <= off <= |o| && Coded(w, At(StateAfter(r1), |w|, o))
    ensures var v := w + MatchBytes(len, off, r1, |lits|) + lits;
            Coded(v, At(StateAfter(|lits|), |v|, Inflate.CopyMatch(o, len, off) + lits))
  {
    hide ReadMatch, Inflate.CopyMatch, MatchBytes, Here, Codable, Reach;
    var t := MatchBytes(len, off, r1, |lits|);
    var v := w + t + lits;
    var c := At(StateAfter(|lits|), |v|, Inflate.CopyMatch(o, len, off) + lits);
    forall s | Starts(s, v) ensures Reach(s, c) {
      StartsHere(s, w + t, lits);
      StartsHere(s, w, t);
      CodedHere(s, w, At(StateAfter(r1), |w|, o));
      MatchReached(s, w, o, len, off, r1, lits);
    }
  }

  /** The length of a run of four literals or more. */
  function RunLength(n: nat): (s: seq<byte>)
    requires n >= 4
    ensures s != []
  {
    if n <= 18 then [n - 3] else [0] + Extra(n - 18)
  }

  lemma RunRead(s: seq<byte>, i: nat, n: nat)
    requires n >= 4 && Here(s, i, RunLength(n))
    ensures i < |s| && s[i] < 16 && Length(s, i + 1, s[i], 15) == Some((n - 3, i + |RunLength(n)|))
  {
    HereAt(s, i, RunLength(n), 0);
    if n > 18 {
      HereParts(s, i, [0], Extra(n - 18));
      ExtraRead(s, i + 1, n - 18, 15);
    }
  }

  /** A run of literals where an instruction is due. */
  lemma RunCoded(w: seq<byte>, o: seq<byte>, lits: seq<byte>)
    requires |lits| >= 4 && Coded(w, At(Fresh, |w|, o))
    ensures var v := w + RunLength(|lits|) + lits; Coded(v, At(AfterRun, |v|, o + lits))
  {
    hide RunLength, Here, Length, Reach, Literals, ReadMatch;
    var t := RunLength(|lits|);
    var v := w + t + lits;
    var c := At(AfterRun, |v|, o + lits);
    forall s | Starts(s, v) ensures Reach(s, c) {
      StartsHere(s, w + t, lits);
      StartsHere(s, w, t);
      RunRead(s, |w|, |lits|);
      CodedHere(s, w, At(Fresh, |w|, o));
      LiteralsHere(s, |w + t|, lits, o, AfterRun);
      ReachNext(s, At(Fresh, |w|, o));
    }
  }

  /** Literals at the start of the stream. */
  lemma FirstCoded(lits: seq<byte>)
    requires 1 <= |lits| <= 238
    ensures var v := [17 + |lits|] + lits; Coded(v, At(StateAfter(|lits|), |v|, lits))
  {
    hide Here, Literals;
    var v := [17 + |lits|] + lits;
    var c := At(StateAfter(|lits|), |v|, lits);
    forall s | Starts(s, v) ensures Reach(s, c) {
      assert s[0] == s[..|v|][0];
      StartsHere(s, [17 + |lits|], lits);
      var st := StateAfter(|lits|);
      LiteralsHere(s, 1, lits, [], st);
      assert [] + lits == lits;
      if |lits| < 4 {
        assert Run(s, 0) == Some(Pending(|lits|, 1, []));
        ReachNext(s, Pending(|lits|, 1, []));
      } else {
        assert Run(s, 0) == Some(c);
      }
    }
  }

  const EndMarker: seq<byte> := [M4_MARKER + 1, 0, 0]

  /** The end marker ends every stream. */
  lemma EndCoded(w: seq<byte>, st: State, o: seq<byte>, s: seq<byte>)
    requires Coded(w, At(st, |w|, o)) && Starts(s, w + EndMarker)
    ensures Decodes(s, o, |w| + 3)
  {
    hide Reach;
    StartsHere(s, w, EndMarker);
    HereAt(s, |w|, EndMarker, 0);
    HereAt(s, |w|, EndMarker, 1);
    HereAt(s, |w|, EndMarker, 2);
    CodedHere(s, w, At(st, |w|, o));
    ReachNext(s, At(st, |w|, o));
  }
}
