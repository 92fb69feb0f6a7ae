/** Turning short matches of an LZO1X stream into literals, and why that keeps its meaning. */
module LzoRewrite {
  import opened Bits
  import Inflate
  import opened LzoFormat
  import opened Options

  /** What precedes a place in the stream: a match and up to three literals, or a run with a one-byte length. */
  datatype Anchor = Nothing | OnMatch(before: Config) | OnRun(before: Config)

  /** After the match that ends at litp + 2 and its lit literals. */
  ghost predicate AfterLiterals(s: seq<byte>, a: Config, litp: nat, lit: nat, cur: Config)
  {
    && a.At? && Reach(s, a) && litp >= 1 && litp + 2 + lit <= |s|
    && var m := ReadMatch(s, a.st, a.pos);
    && m.Some? && m.value.Copy? && m.value.next == litp + 2 && m.value.count == lit && m.value.off <= |a.out|
    && cur == At(if lit == 0 then Fresh else AfterShort, litp + 2 + lit,
                 Inflate.CopyMatch(a.out, m.value.len, m.value.off) + s[litp + 2..litp + 2 + lit])
  }

  /** After the run of lit literals whose length is at litp. */
  ghost predicate AfterLongRun(s: seq<byte>, a: Config, litp: nat, lit: nat, cur: Config)
  {
    && litp + 1 + lit <= |s| && 1 <= s[litp] < 16 && lit == s[litp] + 3
    && a.At? && a == At(Fresh, litp, a.out) && Reach(s, a)
    && cur == At(AfterRun, litp + 1 + lit, a.out + s[litp + 1..litp + 1 + lit])
  }

  /** What litp and lit say about the literals just before a place, where they matter. */
  ghost predicate Placed(s: seq<byte>, anchor: Anchor, litp: int, lit: nat, cur: Config)
  {
    && Reach(s, cur)
    && match anchor
       case Nothing => litp < 0 || lit >= 16
       case OnMatch(a) => litp >= 0 && lit < 4 && AfterLiterals(s, a, litp, lit, cur)
       case OnRun(a) => litp >= 0 && lit >= 4 && AfterLongRun(s, a, litp, lit, cur)
  }

  lemma AfterLiteralsReach(s: seq<byte>, a: Config, litp: nat, lit: nat, cur: Config)
    requires AfterLiterals(s, a, litp, lit, cur)
    ensures Reach(s, cur)
  {
    hide ReadMatch, Inflate.CopyMatch, Reach;
    MatchHere(s, a);
    ReachNext(s, a);
    var c := Step(s, a).value;
    if lit != 0 {
      ReachNext(s, c);
    } else {
      assert c.out + s[litp + 2..litp + 2] == c.out;
    }
  }

  /** Where a match can be read, the step is the match. */
  lemma MatchHere(s: seq<byte>, c: Config)
    requires c.At? && ReadMatch(s, c.st, c.pos).Some?
    ensures c.pos + 2 <= |s| && !(s[c.pos] < 16 && c.st == Fresh)
  {
    hide FarMatch, Length;
  }

  lemma AfterLongRunReach(s: seq<byte>, a: Config, litp: nat, lit: nat, cur: Config)
    requires AfterLongRun(s, a, litp, lit, cur)
    ensures Reach(s, cur)
  {
    hide ReadMatch, Reach;
    ReachNext(s, a);
  }

  // ---------- a match becomes literals of the match before ----------

  /** The n bytes of a match, as literals behind the lit ones there are. */
  ghost predicate Extended(s: seq<byte>, t: seq<byte>, litp: nat, lit: nat, n: nat, xs: seq<byte>)
  {
    var p := litp + 2 + lit;
    && |t| == |s| && |xs| == n && p + n <= |s|
    && (forall k | 0 <= k < |s| && k != litp && !(p <= k < p + n) :: t[k] == s[k])
    && t[litp] == s[litp] / 4 * 4 + lit + n && t[p..p + n] == xs
  }

  lemma ExtendedKeeps(s: seq<byte>, t: seq<byte>, a: Config, litp: nat, lit: nat, n: nat, xs: seq<byte>, cur: Config)
    requires AfterLiterals(s, a, litp, lit, cur) && Extended(s, t, litp, lit, n, xs) && lit + n < 4 && n > 0
    ensures AfterLiterals(t, a, litp, lit + n, At(AfterShort, litp + 2 + lit + n, cur.out + xs))
  {
    hide ReadMatch, Inflate.CopyMatch, Reach;
    ReachSame(s, t, a);
    Recount(s, t, a.st, a.pos, lit + n);
    var p := litp + 2;
    assert t[p..p + lit] == s[p..p + lit];
    assert t[p..p + lit + n] == t[p..p + lit] + t[p + lit..p + lit + n];
  }

  // ---------- literals, a match and a run become one run ----------

  /** The lit literals of a match move up by one, behind a length for all the literals that now follow. */
  ghost predicate Merged(s: seq<byte>, t: seq<byte>, litp: nat, lit: nat, n: nat, xs: seq<byte>, run: nat)
  {
    var q := litp + 3 + lit + n;
    && |t| == |s| && |xs| == n && q <= |s|
    && (forall k | 0 <= k < litp + 2 && k != litp :: t[k] == s[k]) && t[litp] == s[litp] / 4 * 4
    && t[litp + 2] == lit + n + run
    && t[litp + 3..litp + 3 + lit] == s[litp + 2..litp + 2 + lit] && t[litp + 3 + lit..q] == xs
    && (forall k | q <= k < |s| :: t[k] == s[k])
  }

  lemma SliceInThree(o: seq<byte>, t: seq<byte>, a: nat, b: nat, c: nat, d: nat)
    requires a <= b <= c <= d <= |t|
    ensures o + t[a..d] == o + t[a..b] + t[b..c] + t[c..d]
  {
    assert t[a..d] == t[a..b] + t[b..c] + t[c..d];
  }

  lemma MergedKeeps(s: seq<byte>, t: seq<byte>, a: Config, litp: nat, lit: nat, n: nat, xs: seq<byte>, run: nat,
                    cur: Config)
    requires AfterLiterals(s, a, litp, lit, cur) && Merged(s, t, litp, lit, n, xs, run)
    requires 1 <= lit + n + run < 16 && litp + 3 + lit + n + run + 3 <= |s|
    ensures var m := ReadMatch(s, a.st, a.pos).value;
            var q := litp + 3 + lit + n;
            && m.off >= 1
            && AfterLongRun(t, At(Fresh, litp + 2, Inflate.CopyMatch(a.out, m.len, m.off)), litp + 2, lit + n + run + 3,
                            At(AfterRun, q + run + 3, cur.out + xs + s[q..q + run + 3]))
  {
    hide ReadMatch, Inflate.CopyMatch, Reach;
    ReachSame(s, t, a);
    Recount(s, t, a.st, a.pos, 0);
    MatchHere(t, a);
    ReachNext(t, a);
    var p, q := litp + 3, litp + 3 + lit + n;
    assert t[q..q + run + 3] == s[q..q + run + 3];
    var o := Inflate.CopyMatch(a.out, ReadMatch(s, a.st, a.pos).value.len, ReadMatch(s, a.st, a.pos).value.off);
    SliceInThree(o, t, p, p + lit, q, q + run + 3);
  }

  // ---------- two runs with a match between them become one ----------

  ghost predicate Joined(s: seq<byte>, t: seq<byte>, litp: nat, lit: nat, xs: seq<byte>, run: nat)
  {
    var p := litp + 1 + lit;
    && |t| == |s| && |xs| == 3 && p + 3 <= |s|
    && (forall k | 0 <= k < |s| && k != litp && !(p <= k < p + 3) :: t[k] == s[k])
    && t[litp] == lit + 3 + run && t[p..p + 3] == xs
  }

  lemma JoinedKeeps(s: seq<byte>, t: seq<byte>, a: Config, litp: nat, lit: nat, xs: seq<byte>, run: nat, cur: Config)
    requires AfterLongRun(s, a, litp, lit, cur) && Joined(s, t, litp, lit, xs, run)
    requires lit + 3 + run < 16 && litp + 1 + lit + 3 + run + 3 <= |s|
    ensures var q := litp + 1 + lit + 3;
            AfterLongRun(t, a, litp, lit + 3 + run + 3, At(AfterRun, q + run + 3, cur.out + xs + s[q..q + run + 3]))
  {
    hide ReadMatch, Reach;
    ReachBefore(s, t, a, litp);
    var p, q := litp + 1, litp + 1 + lit + 3;
    assert t[p..p + lit] == s[p..p + lit] && t[q..q + run + 3] == s[q..q + run + 3];
    SliceInThree(a.out, t, p, p + lit, q, q + run + 3);
  }

  /** The length of a run may change, even at the very beginning. */
  lemma ReachBefore(s: seq<byte>, t: seq<byte>, a: Config, litp: nat)
    requires Reach(s, a) && a.pos == litp < |s| && Agree(s, t, litp) && s[litp] < 16 && t[litp] < 16
    ensures Reach(t, a)
  {
    hide Reach;
    ReachSame(s, t, a);
  }

  // ---------- the part of the stream not yet read ----------

  ghost predicate SameFrom(s: seq<byte>, t: seq<byte>, i: nat)
  {
    |s| == |t| && forall k | i <= k < |s| :: s[k] == t[k]
  }

  lemma {:induction false} ZerosFrom(s: seq<byte>, t: seq<byte>, i: nat)
    requires i <= |s| && SameFrom(s, t, i)
    ensures ZerosEnd(t, i) == ZerosEnd(s, i)
    decreases |s| - i
  {
    if i < |s| && s[i] == 0 { ZerosFrom(s, t, i + 1); }
  }

  lemma LengthFrom(s: seq<byte>, t: seq<byte>, i: nat, v: nat, base: nat)
    requires i <= |s| && SameFrom(s, t, i)
    ensures Length(t, i, v, base) == Length(s, i, v, base)
    ensures Length(s, i, v, base).Some? ==> i <= Length(s, i, v, base).value.1 <= |s|
  {
    ZerosFrom(s, t, i);
  }

  lemma ReadMatchFrom(s: seq<byte>, t: seq<byte>, st: State, i: nat)
    requires i <= |s| && SameFrom(s, t, i)
    ensures ReadMatch(t, st, i) == ReadMatch(s, st, i)
  {
    hide Length, FarMatch;
    if i + 1 < |s| {
      var v: nat := s[i];
      LengthFrom(s, t, i + 1, v % 32, 31);
      LengthFrom(s, t, i + 1, v % 8, 7);
      FarMatchFrom(s, t, i, Length(s, i + 1, v % 32, 31), 1, false);
      FarMatchFrom(s, t, i, Length(s, i + 1, v % 8, 7), v / 8 % 2 * 0x4000, true);
    }
  }

  lemma FarMatchFrom(s: seq<byte>, t: seq<byte>, i: nat, length: Option<(nat, nat)>, base: nat, veryFar: bool)
    requires SameFrom(s, t, i) && (length.Some? ==> i <= length.value.1)
    ensures FarMatch(t, length, base, veryFar) == FarMatch(s, length, base, veryFar)
  {
  }

  /** What a step does depends on nothing before it. */
  lemma StepFrom(s: seq<byte>, t: seq<byte>, c: Config)
    requires c.pos <= |s| && SameFrom(s, t, c.pos)
    ensures Step(t, c) == Step(s, c)
  {
    hide Length, ReadMatch, Inflate.CopyMatch;
    match c
    case Pending(count, pos, out) => LiteralsFrom(s, t, pos, count, out, AfterShort);
    case At(st, pos, out) =>
      if pos < |s| {
        if s[pos] < 16 && st == Fresh {
          LengthFrom(s, t, pos + 1, s[pos], 15);
          var length := Length(s, pos + 1, s[pos], 15);
          if length.Some? { LiteralsFrom(s, t, length.value.1, length.value.0 + 3, out, AfterRun); }
        } else {
          ReadMatchFrom(s, t, st, pos);
        }
      }
    case Finished(_, _) =>
  }

  lemma LiteralsFrom(s: seq<byte>, t: seq<byte>, pos: nat, n: nat, out: seq<byte>, st: State)
    requires SameFrom(s, t, pos)
    ensures Literals(t, pos, n, out, st) == Literals(s, pos, n, out, st)
  {
    if pos + n <= |s| { assert s[pos..pos + n] == t[pos..pos + n]; }
  }

  /** A byte from 16 on begins the same match wherever it stands. */
  lemma AnyState(s: seq<byte>, st: State, i: nat)
    requires i < |s| && s[i] >= 16
    ensures ReadMatch(s, st, i) == ReadMatch(s, Fresh, i)
  {
    hide Length, FarMatch;
  }

  // ---------- valid streams ----------

  /** n steps lead to the end, and give out. */
  ghost predicate Ends(s: seq<byte>, n: nat, end: nat, out: seq<byte>)
  {
    LzoFormat.Run(s, n) == Some(Finished(end, out))
  }

  /** The configuration after k of the n steps. */
  ghost predicate OnTheWay(s: seq<byte>, n: nat, k: nat, c: Config)
  {
    k <= n && LzoFormat.Run(s, k) == Some(c)
  }

  /** Before the end there always is a next step, and it only adds to the output. */
  lemma NextStep(s: seq<byte>, n: nat, end: nat, out: seq<byte>, k: nat, c: Config)
    requires Ends(s, n, end, out) && OnTheWay(s, n, k, c) && !c.Finished?
    ensures Step(s, c).Some? && OnTheWay(s, n, k + 1, Step(s, c).value) && Step(s, c).value.out <= out
    ensures c.Pending? || c.pos < |s|
  {
    hide Step;
    if k < n {
      RunSome(s, n, k + 1);
      OutGrows(s, n, k + 1);
      assert LzoFormat.Run(s, k + 1) == Step(s, c);
      NotAtEnd(s, c);
    }
  }

  lemma NotAtEnd(s: seq<byte>, c: Config)
    requires Step(s, c).Some?
    ensures c.Pending? || c.pos < |s|
  {
  }

  lemma {:induction false} RunSome(s: seq<byte>, n: nat, k: nat)
    requires k <= n && LzoFormat.Run(s, n).Some?
    ensures LzoFormat.Run(s, k).Some?
  {
    hide Step;
    if k < n { RunSome(s, n - 1, k); }
  }

  lemma {:induction false} OutGrows(s: seq<byte>, n: nat, k: nat)
    requires k <= n && LzoFormat.Run(s, n).Some?
    ensures LzoFormat.Run(s, k).Some? && LzoFormat.Run(s, k).value.out <= LzoFormat.Run(s, n).value.out
  {
    hide Step;
    if k < n {
      OutGrows(s, n - 1, k);
      StepGrows(s, LzoFormat.Run(s, n - 1).value);
    }
  }

  lemma StepGrows(s: seq<byte>, c: Config)
    requires Step(s, c).Some?
    ensures c.out <= Step(s, c).value.out
  {
    hide ReadMatch, Length;
  }

  /** Only the very beginning is at 0. */
  lemma {:induction false} AtZero(s: seq<byte>, n: nat)
    requires LzoFormat.Run(s, n).Some? && LzoFormat.Run(s, n).value.pos == 0
    ensures LzoFormat.Run(s, n) == Some(At(Fresh, 0, [])) && s != [] && s[0] <= 17
  {
    hide Step;
    if n > 0 {
      var c := LzoFormat.Run(s, n - 1).value;
      StepForward(s, c);
      AtZero(s, n - 1);
      Moves(s, c);
    }
  }

  lemma Moves(s: seq<byte>, c: Config)
    requires c.At? && Step(s, c).Some?
    ensures Step(s, c).value.pos > c.pos
  {
    hide ReadMatch;
    if c.pos < |s| { LengthFrom(s, s, c.pos + 1, s[c.pos], 15); }
  }

  /** The byte that counts the literals behind a match is never the first of the stream. */
  lemma CountNotFirst(s: seq<byte>, a: Config)
    requires Reach(s, a) && a.At? && ReadMatch(s, a.st, a.pos).Some?
    ensures ReadMatch(s, a.st, a.pos).value.next >= 3
  {
    if a.pos == 0 {
      var n: nat :| LzoFormat.Run(s, n) == Some(a);
      AtZero(s, n);
      LengthFrom(s, s, 1, s[0] % 8, 7);
    }
  }

  lemma TwoBack(o: seq<byte>, off: nat)
    requires 1 <= off <= |o|
    ensures Inflate.CopyMatch(o, 2, off) == o + [o[|o| - off], if off == 1 then o[|o| - off] else o[|o| - off + 1]]
  {
    var o1 := o + [o[|o| - off]];
    assert Inflate.CopyMatch(o1, 1, off) == o1 + [o1[|o1| - off]];
  }

  lemma ThreeBack(o: seq<byte>, off: nat)
    requires 1 <= off <= |o|
    ensures var x := o[|o| - off];
            var y := if off == 1 then x else o[|o| - off + 1];
            var z := if off == 1 then x else if off == 2 then x else o[|o| - off + 2];
            Inflate.CopyMatch(o, 3, off) == o + [x, y, z]
  {
    TwoBack(o + [o[|o| - off]], off);
  }

  // ---------- the writes ----------

  ghost predicate Overwritten(s: seq<byte>, t: seq<byte>, at: nat, xs: seq<byte>)
  {
    && |t| == |s| && at + |xs| <= |s| && t[at..at + |xs|] == xs
    && forall k | 0 <= k < |s| && !(at <= k < at + |xs|) :: t[k] == s[k]
  }

  /** From at on, m bytes have moved up by one. */
  ghost predicate MovedUp(s: seq<byte>, t: seq<byte>, at: nat, m: nat)
  {
    && |t| == |s| && at + 1 + m <= |s|
    && (forall k | at < k <= at + m :: t[k] == s[k - 1])
    && forall k | 0 <= k < |s| && !(at < k <= at + m) :: t[k] == s[k]
  }

  /** The four writes of a merger, one after the other. */
  lemma Merging(s: seq<byte>, w: seq<byte>, z: seq<byte>, litp: nat, lit: nat, n: nat, xs: seq<byte>, run: nat)
    requires litp + 3 + lit + n <= |s| && |xs| == n && lit + n + run < 16
    requires Overwritten(s[litp := s[litp] / 4 * 4], w, litp + 3 + lit, xs) && MovedUp(w, z, litp + 2, lit)
    ensures Merged(s, z[litp + 2 := lit + n + run], litp, lit, n, xs, run)
  {
    var t: seq<byte> := z[litp + 2 := lit + n + run];
    var q := litp + 3 + lit;
    forall i | q <= i < q + n ensures t[i] == w[i] { assert z[i] == w[i]; }
    forall i | litp + 3 <= i < q ensures t[i] == s[i - 1] { assert z[i] == w[i - 1]; }
    assert t[q..q + n] == w[q..q + n];
  }

  lemma Extending(s: seq<byte>, w: seq<byte>, litp: nat, lit: nat, n: nat, xs: seq<byte>)
    requires litp + 2 + lit + n <= |s| && |xs| == n && lit + n < 4
    requires s[litp] / 4 * 4 + lit + n < 0x100
    requires Overwritten(s[litp := s[litp] / 4 * 4 + lit + n], w, litp + 2 + lit, xs)
    ensures Extended(s, w, litp, lit, n, xs)
  {
  }

  lemma Joining(s: seq<byte>, w: seq<byte>, litp: nat, lit: nat, xs: seq<byte>, run: nat)
    requires litp + 1 + lit + 3 <= |s| && |xs| == 3 && lit + 3 + run < 16
    requires Overwritten(s, w, litp + 1 + lit, xs)
    ensures Joined(s, w[litp := lit + 3 + run], litp, lit, xs, run)
  {
    var t: seq<byte> := w[litp := lit + 3 + run];
    var p := litp + 1 + lit;
    assert t[p..p + 3] == w[p..p + 3];
  }

  // ---------- where a run or a match leaves the place ----------

  /** After a run of literals. */
  lemma PlacedAfterRun(s: seq<byte>, c: Config, cur: Config)
    requires Reach(s, c) && c.At? && c.st == Fresh && c.pos < |s| && s[c.pos] < 16 && Step(s, c) == Some(cur)
    ensures Length(s, c.pos + 1, s[c.pos], 15).Some?
    ensures Placed(s, if s[c.pos] == 0 then Nothing else OnRun(c), c.pos,
                   Length(s, c.pos + 1, s[c.pos], 15).value.0 + 3, cur)
  {
    hide Reach;
    ReachNext(s, c);
  }

  /** After a match and the literals behind it. */
  lemma PlacedAfterMatch(s: seq<byte>, a: Config, m: Instruction, cur: Config)
    requires Reach(s, a) && a.At? && ReadMatch(s, a.st, a.pos) == Some(m) && m.Copy? && m.off <= |a.out|
    requires m.next + m.count <= |s|
    requires cur == At(if m.count == 0 then Fresh else AfterShort, m.next + m.count,
                       Inflate.CopyMatch(a.out, m.len, m.off) + s[m.next..m.next + m.count])
    ensures Placed(s, OnMatch(a), m.next - 2, m.count, cur)
  {
    hide Reach, ReadMatch, Inflate.CopyMatch;
    CountNotFirst(s, a);
    MatchCount(s, a.st, a.pos);
    AfterLiteralsReach(s, a, m.next - 2, m.count, cur);
  }

  lemma MatchCount(s: seq<byte>, st: State, i: nat)
    requires ReadMatch(s, st, i).Some? && ReadMatch(s, st, i).value.Copy?
    ensures ReadMatch(s, st, i).value.count < 4
  {
    hide ReadMatch;
  }

  /** The size of the matches that can become literals. */
  lemma MatchSize(s: seq<byte>, st: State, i: nat)
    requires ReadMatch(s, st, i).Some? && ReadMatch(s, st, i).value.Copy?
    ensures var m := ReadMatch(s, st, i).value;
            && i < |s|
            && (s[i] < 16 || s[i] >= 64 ==> m.next == i + 2)
            && (s[i] < 16 && st == AfterShort ==> m.len == 2)
            && (m.next - i == m.len <==> (s[i] < 16 && st == AfterShort) || (16 <= s[i] < 64 && m.len == 3))
  {
    hide ZerosEnd;
    if 16 <= s[i] < 64 {
      var v: nat := s[i];
      LengthFrom(s, s, i + 1, v % 32, 31);
      LengthFrom(s, s, i + 1, v % 8, 7);
    }
  }
}
