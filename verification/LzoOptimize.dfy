/** lzop's optimiser: it decompresses a block and, in place, turns short matches into literals. */
module LzoOptimize {
  import opened Bits
  import Inflate
  import opened LzoFormat
  import opened LzoRewrite
  import opened Options

  /** The stream given, and that it decodes to result in n steps. */
  datatype Stream = Stream(bytes: seq<byte>, n: nat, end: nat, result: seq<byte>)

  ghost predicate Valid(v: Stream)
  {
    Ends(v.bytes, v.n, v.end, v.result)
  }

  /** The last n bytes. */
  function Tail(s: seq<byte>, n: nat): seq<byte>
    requires n <= |s|
  {
    s[|s| - n..]
  }

  datatype Code = Ok | InputNotConsumed | EofNotFound

  /** How many bytes a match that begins with t takes. */
  ghost predicate Sizes(s: seq<byte>, st: State, m: Instruction, start: nat, t: nat)
  {
    && start < |s| && t == s[start] && m.Copy?
    && (t < 16 || t >= 64 ==> m.next == start + 2)
    && (t < 16 && st == AfterShort ==> m.len == 2)
    && (m.next - start == m.len <==> (t < 16 && st == AfterShort) || (16 <= t < 64 && m.len == 3))
  }

  /** What a match is turned into: literals of the match before, when it gives as many bytes as it takes, and few
      enough; a run, together with the literals before it and the run behind it; or nothing else than it was. */
  ghost predicate Rewritten(s: seq<byte>, u: seq<byte>, m: Instruction, start: nat, t: nat, litp: int, lit: nat,
                            o: seq<byte>)
  {
    m.Copy? && m.next <= |s| && start < m.next && 1 <= m.off <= |o| &&
    var xs := Tail(Inflate.CopyMatch(o, m.len, m.off), m.len);
    if litp < 0 || m.count != 0 || m.next == |s| then u == s
    else if m.next - start == m.len && lit + m.len < 4 && s[m.next] >= 16 then Extended(s, u, litp, lit, m.len, xs)
    else if !(1 <= s[m.next] < 16 && lit + m.len + s[m.next] < 16) then u == s
    else if m.next - start == m.len && lit < 4 then Merged(s, u, litp, lit, m.len, xs, s[m.next])
    else if t >= 64 && m.len == 3 && lit > 3 then Joined(s, u, litp, lit, xs, s[m.next])
    else u == s
  }

  class Optimizer {
    const inp: array<byte>
    const out: array<byte>
    var ip: nat
    var op: nat
    var litp: int
    var lit: nat
    ghost var anchor: Anchor
    ghost var before: State
    ghost var k: nat

    ghost predicate Sized(v: Stream)
      reads this
    {
      inp != out && ip <= inp.Length && op <= out.Length && |v.result| <= out.Length && inp.Length == |v.bytes|
        && Valid(v)
    }

    ghost function O(): seq<byte>
      reads this, out
      requires op <= out.Length
    {
      out[..op]
    }

    /** After k steps of the stream given; the rewritten stream leads to the same place. */
    ghost predicate Ready(v: Stream, st: State)
      reads this, inp, out
    {
      && Sized(v) && SameFrom(v.bytes, inp[..], ip) && OnTheWay(v.bytes, v.n, k, At(st, ip, O()))
      && O() <= v.result
      && Placed(inp[..], anchor, litp, lit, At(before, ip, O()))
      && (before == st || (st == Fresh && before == AfterShort && ip < |v.bytes| && v.bytes[ip] >= 16))
    }

    constructor (inp: array<byte>, out: array<byte>)
      ensures this.inp == inp && this.out == out && ip == 0 && op == 0 && litp == -1 && lit == 0
      ensures anchor == Nothing && before == Fresh && k == 0
    {
      this.inp, this.out := inp, out;
      ip, op, litp, lit := 0, 0, -1, 0;
      anchor, before, k := Nothing, Fresh, 0;
    }

    // ---------- copying ----------

    method CopyLiterals(m: nat)
      requires inp != out && ip + m <= inp.Length && op + m <= out.Length
      modifies this`ip, this`op, out
      ensures ip == old(ip) + m && op == old(op) + m && O() == old(O()) + inp[old(ip)..ip]
    {
      var t := m;
      ghost var ip0, o := ip, O();
      assert o == o + inp[ip0..ip0];
      while t > 0
        invariant 0 <= t <= m && ip == ip0 + (m - t) && op == old(op) + (m - t)
        invariant O() == o + inp[ip0..ip]
      {
        out[op] := inp[ip];
        assert out[..op + 1] == out[..op] + [inp[ip]];
        assert inp[ip0..ip + 1] == inp[ip0..ip] + [inp[ip]];
        op, ip, t := op + 1, ip + 1, t - 1;
      }
    }

    method CopyFrom(off: nat, len: nat)
      requires inp != out && 1 <= off <= op && op + len <= out.Length
      modifies this`op, out
      ensures op == old(op) + len && O() == Inflate.CopyMatch(old(O()), len, off)
    {
      hide Inflate.CopyMatch;
      var mPos, t := op - off, len;
      ghost var o := O();
      while t > 0
        invariant 0 <= t <= len && op == old(op) + (len - t) && mPos == op - off
        invariant Inflate.CopyMatch(O(), t, off) == Inflate.CopyMatch(o, len, off)
      {
        CopyOne(O(), t, off);
        out[op] := out[mPos];
        assert out[..op + 1] == out[..op] + [out[..op][op - off]];
        op, mPos, t := op + 1, mPos + 1, t - 1;
      }
      CopyNone(O(), off);
    }

    /** A match and then literals. */
    method CopyBoth(off: nat, n: nat, m: nat)
      requires inp != out && 1 <= off <= op && ip + m <= inp.Length && op + n + m <= out.Length
      modifies this`ip, this`op, out
      ensures ip == old(ip) + m && op == old(op) + n + m
      ensures O() == Inflate.CopyMatch(old(O()), n, off) + inp[old(ip)..ip]
    {
      CopyFrom(off, n);
      CopyLiterals(m);
    }

    /** The length in t, or if that is 0 in the bytes that follow. */
    method ReadLength(t: nat, base: nat) returns (n: nat)
      requires ip <= inp.Length && Length(inp[..], ip, t, base).Some?
      modifies this`ip
      ensures Some((n, ip)) == Length(inp[..], old(ip), t, base) && old(ip) <= ip <= inp.Length
    {
      n := t;
      if t == 0 {
        n := base;
        ghost var e := ZerosEnd(inp[..], ip);
        while inp[ip] == 0
          invariant old(ip) <= ip <= e && n == base + 255 * (ip - old(ip))
          decreases e - ip
        {
          n, ip := n + 255, ip + 1;
        }
        n, ip := n + inp[ip], ip + 1;
      }
    }

    // ---------- literals in place of a match ----------

    /** copy2: what a match of two bytes would give, though it may overlap what it gives. */
    method Copy2(at: nat, off: nat)
      requires inp != out && 1 <= off <= op <= out.Length && at + 2 <= inp.Length
      modifies inp
      ensures Overwritten(old(inp[..]), inp[..], at, Tail(Inflate.CopyMatch(O(), 2, off), 2))
    {
      hide Inflate.CopyMatch;
      var m := op - off;
      TwoBack(O(), off);
      inp[at] := out[m];
      if off == 1 { inp[at + 1] := out[m]; } else { inp[at + 1] := out[m + 1]; }
      assert inp[at..at + 2] == [inp[at], inp[at + 1]];
    }

    /** copy3. */
    method Copy3(at: nat, off: nat)
      requires inp != out && 1 <= off <= op <= out.Length && at + 3 <= inp.Length
      modifies inp
      ensures Overwritten(old(inp[..]), inp[..], at, Tail(Inflate.CopyMatch(O(), 3, off), 3))
    {
      hide Inflate.CopyMatch;
      var m := op - off;
      ThreeBack(O(), off);
      inp[at] := out[m];
      if off == 1 {
        inp[at + 1] := out[m];
        inp[at + 2] := out[m];
      } else if off == 2 {
        inp[at + 1] := out[m + 1];
        inp[at + 2] := out[m];
      } else {
        inp[at + 1] := out[m + 1];
        inp[at + 2] := out[m + 2];
      }
      assert inp[at..at + 3] == [inp[at], inp[at + 1], inp[at + 2]];
    }

    method CopyOver(at: nat, off: nat, n: nat)
      requires inp != out && 2 <= n <= 3 && 1 <= off <= op <= out.Length && at + n <= inp.Length
      modifies inp
      ensures Overwritten(old(inp[..]), inp[..], at, Tail(Inflate.CopyMatch(O(), n, off), n))
    {
      if n == 2 { Copy2(at, off); } else { Copy3(at, off); }
    }

    /** A match of n bytes in as many bytes becomes literals of the match before it. */
    method Extend(off: nat, n: nat)
      requires inp != out && 2 <= n <= 3 && 1 <= off <= op <= out.Length && n <= ip <= inp.Length
      requires 0 <= litp && litp + 2 + lit + n == ip && lit + n < 4
      modifies this`lit, inp
      ensures lit == old(lit) + n
      ensures Extended(old(inp[..]), inp[..], litp, old(lit), n, Tail(Inflate.CopyMatch(O(), n, off), n))
    {
      hide Inflate.CopyMatch, Overwritten, Extended;
      LowBits(inp[litp], lit + n);
      lit := lit + n;
      inp[litp] := inp[litp] / 4 * 4 + lit;
      assert inp[..] == old(inp[..])[litp := old(inp[..])[litp] / 4 * 4 + lit];
      CopyOver(ip - n, off, n);
      Extending(old(inp[..]), inp[..], litp, old(lit), n, Tail(Inflate.CopyMatch(O(), n, off), n));
    }

    /** memmove by one. */
    method MoveUp(at: nat, m: nat)
      requires at + 1 + m <= inp.Length
      modifies inp
      ensures MovedUp(old(inp[..]), inp[..], at, m)
    {
      forall i | at < i <= at + m { inp[i] := inp[i - 1]; }
    }

    /** The literals before a match of n bytes, the match and the run behind it become one run. */
    method Merge(off: nat, n: nat, run: nat)
      requires inp != out && 2 <= n <= 3 && 1 <= off <= op <= out.Length && n + 1 <= ip <= inp.Length
      requires 0 <= litp && litp + 2 + lit + n + 1 == ip && lit < 4 && lit + n + run < 16
      modifies this`lit, this`litp, inp
      ensures litp == old(litp) + 2 && lit == old(lit) + n + run + 3
      ensures Merged(old(inp[..]), inp[..], old(litp), old(lit), n, Tail(Inflate.CopyMatch(O(), n, off), n), run)
    {
      hide Inflate.CopyMatch, Overwritten, Merged, MovedUp;
      inp[litp] := inp[litp] / 4 * 4;
      assert inp[..] == old(inp[..])[litp := old(inp[..])[litp] / 4 * 4];
      CopyOver(ip - n, off, n);
      ghost var w := inp[..];
      litp := litp + 2;
      MoveUp(litp, lit);
      ghost var z := inp[..];
      lit := lit + n + run + 3;
      inp[litp] := lit - 3;
      Merging(old(inp[..]), w, z, old(litp), old(lit), n, Tail(Inflate.CopyMatch(O(), n, off), n), run);
      assert inp[..] == z[litp := inp[litp]];
    }

    /** Two runs with a match of three bytes in two between them become one run. */
    method Join(off: nat, run: nat)
      requires inp != out && 1 <= off <= op <= out.Length && 3 <= ip <= inp.Length
      requires 0 <= litp && litp + 1 + lit + 3 == ip && lit + 3 + run < 16
      modifies this`lit, inp
      ensures lit == old(lit) + 3 + run + 3
      ensures Joined(old(inp[..]), inp[..], litp, old(lit), Tail(Inflate.CopyMatch(O(), 3, off), 3), run)
    {
      hide Inflate.CopyMatch, Overwritten, Joined;
      CopyOver(ip - 3, off, 3);
      ghost var w := inp[..];
      lit := lit + 3 + run + 3;
      inp[litp] := lit - 3;
      Joining(old(inp[..]), w, litp, old(lit), Tail(Inflate.CopyMatch(O(), 3, off), 3), run);
      assert inp[..] == w[litp := inp[litp]];
    }

    // ---------- literals ----------

    method LiteralRun(ghost v: Stream)
      requires Ready(v, Fresh) && ip < |v.bytes| && v.bytes[ip] < 16
      modifies this, out
      ensures Ready(v, AfterRun) && k == old(k) + 1
    {
      hide Reach, Placed, Ends, OnTheWay, Length;
      ghost var c := At(Fresh, ip, O());
      NextStep(v.bytes, v.n, v.end, v.result, k, c);
      StepFrom(v.bytes, inp[..], c);
      PlacedReach(inp[..], anchor, litp, lit, c);
      PlacedAfterRun(inp[..], c, Step(inp[..], c).value);
      var t: nat := inp[ip];
      ip := ip + 1;
      litp := ip - 1;
      t := ReadLength(t, 15);
      lit := t + 3;
      CopyLiterals(t + 3);
      before, k := AfterRun, k + 1;
      anchor := if inp[litp] == 0 then Nothing else OnRun(c);
      assert Step(v.bytes, c) == Some(At(AfterRun, ip, O()));
    }

    /** A match has been copied; the literals behind it have not. */
    ghost predicate Matched(v: Stream, a: Config, m: Instruction)
      reads this, inp, out
    {
      && Sized(v) && 2 <= ip && SameFrom(v.bytes, inp[..], ip - 2)
      && a.At? && Reach(inp[..], a) && ReadMatch(inp[..], a.st, a.pos) == Some(m) && m.Copy? && m.next == ip
      && m.off <= |a.out|
      && O() == Inflate.CopyMatch(a.out, m.len, m.off) && O() <= v.result
      && OnTheWay(v.bytes, v.n, k, AfterMatch(m.count, ip, O()))
    }

    /** match_done, and the literals behind the match. */
    method MatchDone(ghost v: Stream, ghost a: Config, ghost m: Instruction) returns (st: State)
      requires Matched(v, a, m)
      modifies this, out
      ensures Ready(v, st) && k >= old(k)
    {
      hide Reach, Placed, Ends, OnTheWay, ReadMatch, Inflate.CopyMatch;
      var t: nat := inp[ip - 2] % 4;
      lit := t;
      litp := ip - 2;
      anchor := OnMatch(a);
      if t == 0 {
        assert O() + inp[ip..ip] == O();
        PlacedAfterMatch(inp[..], a, m, At(Fresh, ip, O()));
        before := Fresh;
        return Fresh;
      }
      NextStep(v.bytes, v.n, v.end, v.result, k, Pending(t, ip, O()));
      LiteralsFrom(v.bytes, inp[..], ip, t, O(), AfterShort);
      CopyLiterals(t);
      PlacedAfterMatch(inp[..], a, m, At(AfterShort, ip, O()));
      before, k := AfterShort, k + 1;
      return AfterShort;
    }

    // ---------- matches ----------

    /** m_pos and t of the match at ip: how far back it reaches, and its length; or that it is the end. */
    method ReadInstruction(st: State) returns (off: nat, len: nat, eof: bool)
      requires ip <= inp.Length && ReadMatch(inp[..], st, ip).Some?
      modifies this`ip
      ensures var m := ReadMatch(inp[..], st, old(ip)).value;
              ip == m.next && (eof <==> m.End?) && (!eof ==> off == m.off && len == m.len)
    {
      var t: nat := inp[ip];
      ip := ip + 1;
      eof := false;
      if t < 16 || t >= 64 {
        var b: nat := inp[ip];
        ip := ip + 1;
        if t >= 64 {
          off, len := 1 + t / 4 % 8 + 8 * b, t / 32 - 1 + 2;
        } else if st == AfterRun {
          off, len := 1 + 0x800 + t / 4 + 4 * b, 3;
        } else {
          off, len := 1 + t / 4 + 4 * b, 2;
        }
      } else if t >= 32 {
        FarNext(inp[..], Length(inp[..], ip, t % 32, 31), 1, false);
        len := ReadLength(t % 32, 31);
        off, len := 1 + inp[ip] as nat / 4 + 64 * inp[ip + 1] as nat, len + 2;
        ip := ip + 2;
      } else {
        FarNext(inp[..], Length(inp[..], ip, t % 8, 7), t / 8 % 2 * 0x4000, true);
        len := ReadLength(t % 8, 7);
        off, len := t / 8 % 2 * 0x4000 + inp[ip] as nat / 4 + 64 * inp[ip + 1] as nat, len + 2;
        ip := ip + 2;
        if off == 0 { eof := true; } else { off := off + 0x4000; }
      }
    }

    /** The match m at start has been read, and not been copied. */
    ghost predicate AtMatch(v: Stream, st: State, m: Instruction, start: nat)
      reads this, inp, out
    {
      && Sized(v) && start + 2 <= ip && SameFrom(v.bytes, inp[..], start)
      && OnTheWay(v.bytes, v.n, k, At(st, start, O()))
      && Placed(inp[..], anchor, litp, lit, At(before, start, O()))
      && ReadMatch(inp[..], before, start) == Some(m) && m.Copy? && m.next == ip && m.off <= op
      && (m.count == 0 ==> ip < |v.bytes|)
      && Inflate.CopyMatch(O(), m.len, m.off) <= v.result
      && OnTheWay(v.bytes, v.n, k + 1, AfterMatch(m.count, ip, Inflate.CopyMatch(O(), m.len, m.off)))
    }

    /** copy_m and match_done. */
    method TakeMatch(ghost v: Stream, ghost st0: State, ghost m: Instruction, ghost start: nat, off: nat, len: nat)
      returns (st: State)
      requires AtMatch(v, st0, m, start) && off == m.off && len == m.len
      modifies this, out
      ensures Ready(v, st) && k > old(k)
    {
      hide Reach, Placed, Ends, OnTheWay, ReadMatch, Inflate.CopyMatch;
      ghost var a := At(before, start, O());
      PlacedReach(inp[..], anchor, litp, lit, a);
      CopyFrom(off, len);
      k := k + 1;
      st := MatchDone(v, a, m);
    }

    /** The match in n bytes becomes literals of the one before, since another match follows. */
    method TakeExtended(ghost v: Stream, ghost st0: State, ghost m: Instruction, ghost start: nat, off: nat, n: nat)
      requires AtMatch(v, st0, m, start) && off == m.off && n == m.len && m.count == 0 && 2 <= n <= 3
      requires ip == start + n && litp >= 0 && lit + n < 4 && v.bytes[ip] >= 16
      modifies this, inp, out
      ensures Ready(v, Fresh) && k > old(k)
      ensures Extended(old(inp[..]), inp[..], old(litp), old(lit), n, Tail(Inflate.CopyMatch(old(O()), n, off), n))
    {
      hide Placed, Ends, OnTheWay, ReadMatch, Inflate.CopyMatch, Extended;
      ghost var s, o := inp[..], O();
      PlaceOf(s, anchor, litp, lit, At(before, start, o));
      Extend(off, n);
      ExtendedPlaced(s, inp[..], anchor, litp, lit - n, n, Tail(Inflate.CopyMatch(o, n, off), n), At(before, start, o));
      CopyFrom(off, n);
      TailOf(o, n, off);
      before, k := AfterShort, k + 1;
    }

    /** The match in n bytes, the literals before it and the run behind it become one run. */
    method TakeMerged(ghost v: Stream, ghost st0: State, ghost m: Instruction, ghost start: nat, off: nat, n: nat)
      requires AtMatch(v, st0, m, start) && off == m.off && n == m.len && m.count == 0 && 2 <= n <= 3
      requires ip == start + n && litp >= 0 && lit < 4 && 1 <= v.bytes[ip] < 16 && lit + n + v.bytes[ip] < 16
      modifies this, inp, out
      ensures Ready(v, AfterRun) && k > old(k)
      ensures Merged(old(inp[..]), inp[..], old(litp), old(lit), n, Tail(Inflate.CopyMatch(old(O()), n, off), n),
                     v.bytes[old(ip)])
    {
      hide Placed, Ends, OnTheWay, ReadMatch, Inflate.CopyMatch, Merged;
      ghost var s, o := inp[..], O();
      ghost var lit0, litp0: nat := lit, litp;
      PlaceOf(s, anchor, litp, lit, At(before, start, o));
      RunAhead(v, k + 1, ip, Inflate.CopyMatch(o, n, off));
      var t: nat := inp[ip];
      ip := ip + 1;
      Merge(off, n, t);
      anchor := MergedPlaced(s, inp[..], anchor, litp0, lit0, n, Tail(Inflate.CopyMatch(o, n, off), n), t,
                             At(before, start, o));
      TailOf(o, n, off);
      SliceFrom(v.bytes, inp[..], ip, t + 3);
      CopyBoth(off, n, t + 3);
      before, k := AfterRun, k + 2;
    }

    /** The match of three bytes in two and the runs on both sides of it become one run. */
    method TakeJoined(ghost v: Stream, ghost st0: State, ghost m: Instruction, ghost start: nat, off: nat)
      requires AtMatch(v, st0, m, start) && off == m.off && m.len == 3 && m.count == 0
      requires ip == start + 2 && litp >= 0 && lit > 3 && 1 <= v.bytes[ip] < 16 && lit + 3 + v.bytes[ip] < 16
      modifies this, inp, out
      ensures Ready(v, AfterRun) && k > old(k)
      ensures Joined(old(inp[..]), inp[..], old(litp), old(lit), Tail(Inflate.CopyMatch(old(O()), 3, off), 3),
                     v.bytes[old(ip)])
    {
      hide Placed, Ends, OnTheWay, ReadMatch, Inflate.CopyMatch, Joined;
      ghost var s, o := inp[..], O();
      ghost var lit0, litp0: nat := lit, litp;
      RunPlaceOf(s, anchor, litp, lit, At(before, start, o));
      RunAhead(v, k + 1, ip, Inflate.CopyMatch(o, 3, off));
      var t: nat := inp[ip];
      ip := ip + 1;
      Join(off, t);
      JoinedPlaced(s, inp[..], anchor, litp0, lit0, Tail(Inflate.CopyMatch(o, 3, off), 3), t, At(before, start, o));
      TailOf(o, 3, off);
      SliceFrom(v.bytes, inp[..], ip, t + 3);
      CopyBoth(off, 3, t + 3);
      before, k := AfterRun, k + 2;
    }

    /** copy_m, unless one of the rewritings applies. */
    method TakeCopy(ghost v: Stream, st: State, ghost m: Instruction, ghost start: nat, t: nat, off: nat, len: nat)
      returns (next: State)
      requires AtMatch(v, st, m, start) && off == m.off && len == m.len && Sizes(v.bytes, st, m, start, t)
      requires before == st || t >= 16
      modifies this, inp, out
      ensures Ready(v, next) && k > old(k)
      ensures Rewritten(old(inp[..]), inp[..], m, start, t, old(litp), old(lit), old(O()))
    {
      hide Reach, Placed, Ends, OnTheWay, ReadMatch, Inflate.CopyMatch, Extended, Merged, Joined, SameFrom;
      SameHere(v.bytes, inp[..], start, ip);
      if litp >= 0 {
        var nl := inp[ip - 2] % 4;
        MatchCount(inp[..], before, start);
        PlacedKind(inp[..], anchor, litp, lit, At(before, start, O()));
        if t < 16 && st == AfterShort {
          if nl == 0 && lit == 1 && inp[ip] >= 16 {
            TakeExtended(v, st, m, start, off, 2);
            return Fresh;
          } else if nl == 0 && inp[ip] < 16 && inp[ip] != 0 && lit + 2 + inp[ip] as nat < 16 {
            TakeMerged(v, st, m, start, off, 2);
            return AfterRun;
          }
        } else if t >= 64 {
          if len == 3 && lit > 3 && nl == 0 && inp[ip] < 16 && inp[ip] != 0 && lit + 3 + inp[ip] as nat < 16 {
            TakeJoined(v, st, m, start, off);
            return AfterRun;
          }
        } else if t >= 16 {
          if len == 3 && lit == 0 && nl == 0 && inp[ip] >= 16 {
            TakeExtended(v, st, m, start, off, 3);
            return Fresh;
          } else if len == 3 && lit <= 3 && nl == 0 && inp[ip] < 16 && inp[ip] != 0 && lit + 3 + inp[ip] as nat < 16 {
            TakeMerged(v, st, m, start, off, 3);
            return AfterRun;
          }
        }
      }
      next := TakeMatch(v, st, m, start, off, len);
    }

    /** One match, with the literals behind it, or together with what it is merged with; or the end of the stream. */
    method TakeInstruction(ghost v: Stream, st: State) returns (eof: bool, next: State)
      requires Ready(v, st) && ip < |v.bytes| && !(v.bytes[ip] < 16 && st == Fresh)
      modifies this, inp, out
      ensures !eof ==> Ready(v, next) && k > old(k)
      ensures eof ==> Sized(v) && ip == v.end && O() == v.result && Reach(inp[..], Finished(ip, O()))
    {
      hide Reach, Placed, Ends, ReadMatch, Inflate.CopyMatch, Rewritten;
      Instruct(v, inp[..], st, before, k, ip, O());
      ghost var start, m := ip, ReadMatch(inp[..], st, ip).value;
      var t: nat := inp[ip];
      var off, len;
      off, len, eof := ReadInstruction(st);
      if eof {
        PlacedReach(inp[..], anchor, litp, lit, At(before, start, O()));
        ReachNext(inp[..], At(before, start, O()));
        AtEnd(v, k + 1, ip, O());
        return true, Fresh;
      }
      MatchSize(inp[..], st, start);
      next := TakeCopy(v, st, m, start, t, off, len);
    }

    // ---------- the whole stream ----------

    /** The literals a stream may begin with. */
    method Begin(ghost v: Stream) returns (st: State)
      requires Sized(v) && inp[..] == v.bytes && ip == op == lit == k == 0 && litp == -1 && anchor == Nothing
      requires before == Fresh
      modifies this, out
      ensures Ready(v, st)
    {
      hide Ends, Step, Reach;
      BeginsWell(v);
      assert O() == [];
      if inp[0] > 17 {
        var t: nat := inp[0] - 17;
        ip := 1;
        CopyLiterals(t);
        assert [] + inp[1..ip] == v.bytes[1..ip];
        if t < 4 {
          before, k := AfterShort, 1;
          return AfterShort;
        }
        before := AfterRun;
        return AfterRun;
      }
      return Fresh;
    }

    /** lzo1x_optimize: the stream still decodes to the same bytes and ends at the same place, and out holds them. */
    method Optimize(ghost v: Stream) returns (code: Code, outLen: nat)
      requires Sized(v) && inp[..] == v.bytes && ip == op == lit == k == 0 && litp == -1 && anchor == Nothing
      requires before == Fresh
      modifies this, inp, out
      ensures Decodes(inp[..], v.result, v.end)
      ensures outLen == |v.result| && out[..outLen] == v.result
      ensures code == if v.end == inp.Length then Ok else InputNotConsumed
    {
      hide Ends, OnTheWay, Placed, Reach;
      var st := Begin(v);
      Ahead(v, k, st, ip, O());
      code, outLen := EofNotFound, 0;
      while ip < inp.Length && op <= out.Length
        invariant Ready(v, st) && ip < inp.Length
        decreases v.n - k
      {
        if st == Fresh && inp[ip] < 16 {
          Bounded(v, k, st, ip, O());
          LiteralRun(v);
          st := AfterRun;
        } else {
          Bounded(v, k, st, ip, O());
          var eof;
          eof, st := TakeInstruction(v, st);
          if eof {
            EndFits(inp[..], ip, O());
            return if ip == inp.Length then Ok else InputNotConsumed, op;
          }
        }
        Ahead(v, k, st, ip, O());
      }
      assert false;
    }
  }

  lemma CopyOne(o: seq<byte>, t: nat, off: nat)
    requires 1 <= off <= |o| && t > 0
    ensures Inflate.CopyMatch(o, t, off) == Inflate.CopyMatch(o + [o[|o| - off]], t - 1, off)
  {
  }

  lemma CopyNone(o: seq<byte>, off: nat)
    requires 1 <= off <= |o|
    ensures Inflate.CopyMatch(o, 0, off) == o
  {
  }

  lemma PlacedReach(s: seq<byte>, anchor: Anchor, litp: int, lit: nat, cur: Config)
    requires Placed(s, anchor, litp, lit, cur)
    ensures Reach(s, cur)
  {
  }

  /** Where the literals of a match end. */
  lemma PlaceOf(s: seq<byte>, anchor: Anchor, litp: nat, lit: nat, cur: Config)
    requires Placed(s, anchor, litp, lit, cur) && lit < 4
    ensures cur.At? && cur.pos == litp + 2 + lit <= |s|
  {
  }

  lemma RunPlaceOf(s: seq<byte>, anchor: Anchor, litp: nat, lit: nat, cur: Config)
    requires Placed(s, anchor, litp, lit, cur) && 4 <= lit < 16
    ensures cur.At? && cur.pos == litp + 1 + lit <= |s|
  {
  }

  lemma TailOf(o: seq<byte>, n: nat, off: nat)
    requires 1 <= off <= |o|
    ensures Inflate.CopyMatch(o, n, off) == o + Tail(Inflate.CopyMatch(o, n, off), n)
  {
  }

  lemma SliceFrom(s: seq<byte>, t: seq<byte>, i: nat, n: nat)
    requires SameFrom(s, t, i) && i + n <= |s|
    ensures s[i..i + n] == t[i..i + n]
  {
  }

  /** After the literals of a match have grown. */
  lemma ExtendedPlaced(s: seq<byte>, t: seq<byte>, anchor: Anchor, litp: nat, lit: nat, n: nat, xs: seq<byte>,
                       cur: Config)
    requires Placed(s, anchor, litp, lit, cur) && Extended(s, t, litp, lit, n, xs) && lit + n < 4 && n > 0
    ensures Placed(t, anchor, litp, lit + n, At(AfterShort, litp + 2 + lit + n, cur.out + xs))
    ensures SameFrom(s, t, litp + 2 + lit + n)
  {
    hide AfterLiterals, Reach;
    var a := anchor.before;
    ExtendedKeeps(s, t, a, litp, lit, n, xs, cur);
    AfterLiteralsReach(t, a, litp, lit + n, At(AfterShort, litp + 2 + lit + n, cur.out + xs));
  }

  /** After literals, a match and a run have become one run. */
  lemma MergedPlaced(s: seq<byte>, t: seq<byte>, anchor: Anchor, litp: nat, lit: nat, n: nat, xs: seq<byte>, run: nat,
                     cur: Config)
      returns (anchor': Anchor)
    requires Placed(s, anchor, litp, lit, cur) && lit < 4 && Merged(s, t, litp, lit, n, xs, run)
    requires 1 <= lit + n + run < 16 && litp + 3 + lit + n + run + 3 <= |s|
    ensures var q := litp + 3 + lit + n;
            && Placed(t, anchor', litp + 2, lit + n + run + 3,
                      At(AfterRun, q + run + 3, cur.out + xs + t[q..q + run + 3]))
            && SameFrom(s, t, q)
  {
    hide AfterLiterals, AfterLongRun, Reach, ReadMatch, Inflate.CopyMatch;
    var a, q := anchor.before, litp + 3 + lit + n;
    MergedKeeps(s, t, a, litp, lit, n, xs, run, cur);
    MatchOf(s, a, litp, lit, cur);
    var m := ReadMatch(s, a.st, a.pos).value;
    var a' := At(Fresh, litp + 2, Inflate.CopyMatch(a.out, m.len, m.off));
    assert s[q..q + run + 3] == t[q..q + run + 3];
    AfterLongRunReach(t, a', litp + 2, lit + n + run + 3, At(AfterRun, q + run + 3, cur.out + xs + t[q..q + run + 3]));
    return OnRun(a');
  }

  lemma MatchOf(s: seq<byte>, a: Config, litp: nat, lit: nat, cur: Config)
    requires AfterLiterals(s, a, litp, lit, cur)
    ensures a.At? && ReadMatch(s, a.st, a.pos).Some? && ReadMatch(s, a.st, a.pos).value.Copy?
    ensures 1 <= ReadMatch(s, a.st, a.pos).value.off <= |a.out|
  {
    hide Inflate.CopyMatch;
  }

  /** After two runs and the match between them have become one run. */
  lemma JoinedPlaced(s: seq<byte>, t: seq<byte>, anchor: Anchor, litp: nat, lit: nat, xs: seq<byte>, run: nat,
                     cur: Config)
    requires Placed(s, anchor, litp, lit, cur) && 4 <= lit && Joined(s, t, litp, lit, xs, run)
    requires lit + 3 + run < 16 && litp + 1 + lit + 3 + run + 3 <= |s|
    ensures var q := litp + 1 + lit + 3;
            && Placed(t, anchor, litp, lit + 3 + run + 3, At(AfterRun, q + run + 3, cur.out + xs + t[q..q + run + 3]))
            && SameFrom(s, t, q)
  {
    hide AfterLongRun, Reach;
    var a, q := anchor.before, litp + 1 + lit + 3;
    JoinedKeeps(s, t, a, litp, lit, xs, run, cur);
    assert s[q..q + run + 3] == t[q..q + run + 3];
    AfterLongRunReach(t, a, litp, lit + 3 + run + 3, At(AfterRun, q + run + 3, cur.out + xs + t[q..q + run + 3]));
  }

  /** The run ahead has a one-byte length. */
  lemma RunAhead(v: Stream, k: nat, pos: nat, o: seq<byte>)
    requires Valid(v) && OnTheWay(v.bytes, v.n, k, At(Fresh, pos, o)) && pos < |v.bytes| && 1 <= v.bytes[pos] < 16
    ensures var p, e := pos + 1, pos + 1 + v.bytes[pos] + 3;
            && e <= |v.bytes| && o + v.bytes[p..e] <= v.result
            && OnTheWay(v.bytes, v.n, k + 1, At(AfterRun, e, o + v.bytes[p..e]))
  {
    hide Step, Ends, OnTheWay;
    NextStep(v.bytes, v.n, v.end, v.result, k, At(Fresh, pos, o));
    ShortRun(v.bytes, At(Fresh, pos, o));
  }

  /** A run with a one-byte length. */
  lemma ShortRun(s: seq<byte>, c: Config)
    requires c.At? && c.st == Fresh && c.pos < |s| && 1 <= s[c.pos] < 16 && Step(s, c).Some?
    ensures var p := c.pos + 1;
            p + s[c.pos] + 3 <= |s|
              && Step(s, c) == Some(At(AfterRun, p + s[c.pos] + 3, c.out + s[p..p + s[c.pos] + 3]))
  {
    hide ReadMatch;
  }

  /** What is known about the instruction ahead, in the stream given and in the one rewritten so far. */
  lemma Instruct(v: Stream, s: seq<byte>, st: State, before: State, k: nat, start: nat, o: seq<byte>)
    requires Valid(v) && start < |v.bytes| && SameFrom(v.bytes, s, start) && OnTheWay(v.bytes, v.n, k, At(st, start, o))
    requires !(v.bytes[start] < 16 && st == Fresh)
    requires before == st || (st == Fresh && before == AfterShort && v.bytes[start] >= 16)
    ensures |s| == |v.bytes| && s[start] == v.bytes[start]
    ensures ReadMatch(s, st, start).Some? && ReadMatch(s, before, start) == ReadMatch(s, st, start)
    ensures var m := ReadMatch(s, st, start).value;
            if m.End? then OnTheWay(v.bytes, v.n, k + 1, Finished(m.next, o))
              && Step(s, At(before, start, o)) == Some(Finished(m.next, o))
            else
              && m.off <= |o| && Inflate.CopyMatch(o, m.len, m.off) <= v.result
              && OnTheWay(v.bytes, v.n, k + 1, AfterMatch(m.count, m.next, Inflate.CopyMatch(o, m.len, m.off)))
              && (m.count == 0 ==> m.next < |v.bytes|)
  {
    hide ReadMatch, Ends, OnTheWay, Inflate.CopyMatch;
    var c := At(st, start, o);
    NextStep(v.bytes, v.n, v.end, v.result, k, c);
    ReadMatchFrom(v.bytes, s, st, start);
    if before != st { AnyState(s, before, start); }
    var m := ReadMatch(s, st, start).value;
    if m.Copy? {
      NextStep(v.bytes, v.n, v.end, v.result, k + 1, AfterMatch(m.count, m.next, Inflate.CopyMatch(o, m.len, m.off)));
    }
  }

  /** The end is reached once, after all the steps. */
  lemma AtEnd(v: Stream, k: nat, pos: nat, o: seq<byte>)
    requires Valid(v) && OnTheWay(v.bytes, v.n, k, Finished(pos, o))
    ensures pos == v.end && o == v.result
  {
    hide Step;
    if k < v.n {
      RunSome(v.bytes, v.n, k + 1);
      assert LzoFormat.Run(v.bytes, k + 1) == Step(v.bytes, Finished(pos, o));
      NoStepAtEnd(v.bytes, pos, o);
    }
  }

  lemma NoStepAtEnd(s: seq<byte>, pos: nat, o: seq<byte>)
    ensures Step(s, Finished(pos, o)) == None
  {
  }

  /** Which literals there are just before a place. */
  lemma PlacedKind(s: seq<byte>, anchor: Anchor, litp: int, lit: nat, cur: Config)
    requires Placed(s, anchor, litp, lit, cur) && litp >= 0 && cur.At?
    ensures cur.st == AfterShort && lit < 16 ==> 1 <= lit < 4
  {
  }

  lemma SameHere(s: seq<byte>, t: seq<byte>, i: nat, j: nat)
    requires SameFrom(s, t, i) && i <= j
    ensures |s| == |t| && (j < |s| ==> s[j] == t[j])
  {
  }

  lemma Ahead(v: Stream, k: nat, st: State, pos: nat, o: seq<byte>)
    requires Valid(v) && OnTheWay(v.bytes, v.n, k, At(st, pos, o))
    ensures pos < |v.bytes|
  {
    hide Step;
    NextStep(v.bytes, v.n, v.end, v.result, k, At(st, pos, o));
  }

  lemma Bounded(v: Stream, k: nat, st: State, pos: nat, o: seq<byte>)
    requires Valid(v) && OnTheWay(v.bytes, v.n, k, At(st, pos, o))
    ensures k < v.n
  {
    hide Step;
    NextStep(v.bytes, v.n, v.end, v.result, k, At(st, pos, o));
  }

  lemma EndFits(s: seq<byte>, pos: nat, o: seq<byte>)
    requires Reach(s, Finished(pos, o))
    ensures Decodes(s, o, pos)
  {
  }

  /** What a valid stream begins with. */
  lemma BeginsWell(v: Stream)
    requires Valid(v)
    ensures v.bytes != []
    ensures var t: int := v.bytes[0];
            if t <= 17 then OnTheWay(v.bytes, v.n, 0, At(Fresh, 0, [])) && Reach(v.bytes, At(Fresh, 0, []))
            else
              && t - 16 <= |v.bytes| && v.bytes[1..t - 16] <= v.result
              && var c := At(if t < 21 then AfterShort else AfterRun, t - 16, v.bytes[1..t - 16]);
              OnTheWay(v.bytes, v.n, if t < 21 then 1 else 0, c) && Reach(v.bytes, c)
  {
    hide Step, Ends;
    RunZero(v);
    var c := First(v.bytes).value;
    var t: nat := v.bytes[0];
    if 18 <= t < 21 {
      NextStep(v.bytes, v.n, v.end, v.result, 0, c);
      PendingStep(v.bytes, c);
      assert [] + v.bytes[1..t - 16] == v.bytes[1..t - 16];
      ReachNext(v.bytes, c);
    } else if t >= 21 {
      assert [] + v.bytes[1..t - 16] == v.bytes[1..t - 16];
      NextStep(v.bytes, v.n, v.end, v.result, 0, c);
      StepGrows(v.bytes, c);
    }
  }

  lemma RunZero(v: Stream)
    requires Valid(v)
    ensures v.bytes != [] && First(v.bytes).Some? && OnTheWay(v.bytes, v.n, 0, First(v.bytes).value)
    ensures Reach(v.bytes, First(v.bytes).value)
  {
    hide Step;
    RunSome(v.bytes, v.n, 0);
    assert LzoFormat.Run(v.bytes, 0) == First(v.bytes);
  }

  lemma PendingStep(s: seq<byte>, c: Config)
    requires c.Pending? && Step(s, c).Some?
    ensures c.pos + c.count <= |s|
    ensures Step(s, c) == Some(At(AfterShort, c.pos + c.count, c.out + s[c.pos..c.pos + c.count]))
  {
  }
}
