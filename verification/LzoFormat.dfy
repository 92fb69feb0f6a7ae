/** What an LZO1X stream means: the decoder's steps, and what each of them depends on. */
module LzoFormat {
  import opened Bits
  import Inflate
  import opened Options

  /** What the next byte below 16 would begin: a run of literals, a short match, or one after a run of literals. */
  datatype State = Fresh | AfterShort | AfterRun

  /** Between two instructions; with up to three literals of the last match still to be read; or at the end. */
  datatype Config =
    | At(st: State, pos: nat, out: seq<byte>)
    | Pending(count: nat, pos: nat, out: seq<byte>)
    | Finished(pos: nat, out: seq<byte>)

  datatype Instruction = Copy(off: nat, len: nat, next: nat, count: nat) | End(next: nat)

  /** Where the zeros from i on end. */
  function ZerosEnd(s: seq<byte>, i: nat): (j: nat)
    requires i <= |s|
    ensures i <= j <= |s| && (j < |s| ==> s[j] != 0) && forall k | i <= k < j :: s[k] == 0
    decreases |s| - i
  {
    if i < |s| && s[i] == 0 then ZerosEnd(s, i + 1) else i
  }

  /** A length: t itself, or if that is 0 base, 255 for each zero, and one more byte. Also where it ends. */
  function Length(s: seq<byte>, i: nat, t: nat, base: nat): Option<(nat, nat)>
    requires i <= |s|
  {
    if t != 0 then Some((t, i))
    else
      var j := ZerosEnd(s, i);
      if j == |s| then None else Some((base + 255 * (j - i) + s[j], j + 1))
  }

  /** The match at i; the number of literals behind it is in the last byte but one. */
  function ReadMatch(s: seq<byte>, st: State, i: nat): (r: Option<Instruction>)
    ensures r.Some? ==> i + 2 <= r.value.next <= |s|
    ensures r.Some? && r.value.Copy? ==>
              r.value.off >= 1 && r.value.len >= 2 && r.value.count == s[r.value.next - 2] % 4
  {
    if i + 1 >= |s| then None
    else
      var t: nat, b: nat := s[i], s[i + 1];
      if t < 16 then
        if st == Fresh then None
        else if st == AfterRun then Some(Copy(0x801 + t / 4 + 4 * b, 3, i + 2, t % 4))
        else Some(Copy(1 + t / 4 + 4 * b, 2, i + 2, t % 4))
      else if t >= 64 then Some(Copy(1 + t / 4 % 8 + 8 * b, t / 32 + 1, i + 2, t % 4))
      else if t >= 32 then FarMatch(s, Length(s, i + 1, t % 32, 31), 1, false)
      else FarMatch(s, Length(s, i + 1, t % 8, 7), t / 8 % 2 * 0x4000, true)
  }

  /** The two bytes of the distance after a length. */
  function FarMatch(s: seq<byte>, length: Option<(nat, nat)>, base: nat, veryFar: bool): Option<Instruction>
  {
    if length == None || length.value.1 + 1 >= |s| then None
    else
      var j := length.value.1;
      var t: nat, b: nat := s[j], s[j + 1];
      var off := base + t / 4 + 64 * b;
      if veryFar && off == 0 then Some(End(j + 2))
      else Some(Copy(if veryFar then off + 0x4000 else off, length.value.0 + 2, j + 2, t % 4))
  }

  function AfterMatch(count: nat, pos: nat, out: seq<byte>): Config
  {
    if count == 0 then At(Fresh, pos, out) else Pending(count, pos, out)
  }

  /** A run of literals. */
  function Literals(s: seq<byte>, pos: nat, n: nat, out: seq<byte>, st: State): Option<Config>
  {
    if pos + n > |s| then None else Some(At(st, pos + n, out + s[pos..pos + n]))
  }

  function Step(s: seq<byte>, c: Config): Option<Config>
  {
    match c
    case Finished(_, _) => None
    case Pending(count, pos, out) => Literals(s, pos, count, out, AfterShort)
    case At(st, pos, out) =>
      if pos >= |s| then None
      else if s[pos] < 16 && st == Fresh then
        var length := Length(s, pos + 1, s[pos], 15);
        if length == None then None else Literals(s, length.value.1, length.value.0 + 3, out, AfterRun)
      else
        var m := ReadMatch(s, st, pos);
        if m == None then None
        else if m.value.End? then Some(Finished(m.value.next, out))
        else if m.value.off > |out| then None
        else Some(AfterMatch(m.value.count, m.value.next, Inflate.CopyMatch(out, m.value.len, m.value.off)))
  }

  /** A stream may begin with literals: a first byte above 17 counts them. */
  function First(s: seq<byte>): Option<Config>
  {
    if s == [] then None
    else if s[0] <= 17 then Some(At(Fresh, 0, []))
    else if s[0] < 21 then Some(Pending(s[0] - 17, 1, []))
    else Literals(s, 1, s[0] - 17, [], AfterRun)
  }

  /** The configuration after n steps. */
  function Run(s: seq<byte>, n: nat): Option<Config>
  {
    if n == 0 then First(s)
    else if Run(s, n - 1) == None then None else Step(s, Run(s, n - 1).value)
  }

  ghost predicate Reach(s: seq<byte>, c: Config)
  {
    exists n: nat :: Run(s, n) == Some(c)
  }

  /** The stream ends at end, and decodes to out. */
  ghost predicate Decodes(s: seq<byte>, out: seq<byte>, end: nat)
  {
    Reach(s, Finished(end, out))
  }

  // ---------- what a step depends on ----------

  ghost predicate Agree(s: seq<byte>, t: seq<byte>, n: nat)
  {
    |s| == |t| && n <= |s| && forall i | 0 <= i < n :: s[i] == t[i]
  }

  lemma {:induction false} ZerosEndSame(s: seq<byte>, t: seq<byte>, i: nat)
    requires i <= |s| && ZerosEnd(s, i) < |s| && Agree(s, t, ZerosEnd(s, i) + 1)
    ensures ZerosEnd(t, i) == ZerosEnd(s, i)
    decreases |s| - i
  {
    if s[i] == 0 { ZerosEndSame(s, t, i + 1); }
  }

  lemma LengthSame(s: seq<byte>, t: seq<byte>, i: nat, v: nat, base: nat)
    requires i <= |s| && Length(s, i, v, base).Some? && Agree(s, t, Length(s, i, v, base).value.1)
    ensures Length(t, i, v, base) == Length(s, i, v, base)
  {
    if v == 0 { ZerosEndSame(s, t, i); }
  }

  lemma ReadMatchSame(s: seq<byte>, t: seq<byte>, st: State, i: nat)
    requires ReadMatch(s, st, i).Some? && Agree(s, t, ReadMatch(s, st, i).value.next)
    ensures ReadMatch(t, st, i) == ReadMatch(s, st, i)
  {
    hide Length;
    if 32 <= s[i] < 64 { LengthSame(s, t, i + 1, s[i] % 32, 31); }
    if 16 <= s[i] < 32 { LengthSame(s, t, i + 1, s[i] % 8, 7); }
  }

  lemma LowBits(v: nat, count: nat)
    requires count < 4
    ensures var w := v / 4 * 4 + count;
            && w / 4 == v / 4 && w % 4 == count && w / 32 == v / 32 && (v < 16 <==> w < 16) && (v >= 64 <==> w >= 64)
            && (v < 0x100 ==> w < 0x100)
  {
  }

  lemma FarRecount(s: seq<byte>, t: seq<byte>, length: Option<(nat, nat)>, base: nat, veryFar: bool, count: nat)
    requires FarMatch(s, length, base, veryFar).Some? && FarMatch(s, length, base, veryFar).value.Copy? && count < 4
    requires var j := length.value.1; |t| == |s| && t[j] == s[j] / 4 * 4 + count && t[j + 1] == s[j + 1]
    ensures FarMatch(t, length, base, veryFar) == Some(FarMatch(s, length, base, veryFar).value.(count := count))
  {
    LowBits(s[length.value.1], count);
  }

  /** Only the number of literals behind a match differs. */
  ghost predicate Recounted(s: seq<byte>, t: seq<byte>, at: nat, count: nat)
  {
    && |t| == |s| && at + 2 <= |s| && count < 4
    && (forall k | 0 <= k < at + 2 && k != at :: t[k] == s[k]) && t[at] == s[at] / 4 * 4 + count
  }

  /** Changing the number of literals behind a match changes nothing else about it. */
  lemma Recount(s: seq<byte>, t: seq<byte>, st: State, i: nat, count: nat)
    requires ReadMatch(s, st, i).Some? && ReadMatch(s, st, i).value.Copy?
    requires Recounted(s, t, ReadMatch(s, st, i).value.next - 2, count)
    ensures ReadMatch(t, st, i) == Some(ReadMatch(s, st, i).value.(count := count))
  {
    hide Length, FarMatch;
    var n := ReadMatch(s, st, i).value.next;
    if 32 <= s[i] < 64 {
      FarNext(s, Length(s, i + 1, s[i] % 32, 31), 1, false);
      LengthAfter(s, i + 1, s[i] % 32, 31);
      LengthSame(s, t, i + 1, s[i] % 32, 31);
      FarRecount(s, t, Length(s, i + 1, s[i] % 32, 31), 1, false, count);
    } else if 16 <= s[i] < 32 {
      var v: nat := s[i];
      FarNext(s, Length(s, i + 1, v % 8, 7), v / 8 % 2 * 0x4000, true);
      LengthAfter(s, i + 1, v % 8, 7);
      LengthSame(s, t, i + 1, v % 8, 7);
      FarRecount(s, t, Length(s, i + 1, v % 8, 7), v / 8 % 2 * 0x4000, true, count);
    } else {
      LowBits(s[i], count);
    }
  }

  lemma FarNext(s: seq<byte>, length: Option<(nat, nat)>, base: nat, veryFar: bool)
    requires FarMatch(s, length, base, veryFar).Some?
    ensures length.Some? && FarMatch(s, length, base, veryFar).value.next == length.value.1 + 2 <= |s|
  {
  }

  lemma SameLiterals(s: seq<byte>, t: seq<byte>, pos: nat, n: nat, out: seq<byte>, st: State)
    requires pos + n <= |s| && Agree(s, t, pos + n)
    ensures Literals(t, pos, n, out, st) == Literals(s, pos, n, out, st)
  {
    assert s[pos..pos + n] == t[pos..pos + n];
  }

  lemma StepSame(s: seq<byte>, t: seq<byte>, c: Config)
    requires Step(s, c).Some? && Agree(s, t, Step(s, c).value.pos)
    ensures c.pos <= Step(s, c).value.pos && Step(t, c) == Step(s, c)
  {
    hide ReadMatch, Length, Inflate.CopyMatch;
    match c
    case Pending(count, pos, out) => SameLiterals(s, t, pos, count, out, AfterShort);
    case At(st, pos, out) =>
      if s[pos] < 16 && st == Fresh {
        LengthAfter(s, pos + 1, s[pos], 15);
        var length := Length(s, pos + 1, s[pos], 15).value;
        LengthSame(s, t, pos + 1, s[pos], 15);
        SameLiterals(s, t, length.1, length.0 + 3, out, AfterRun);
      } else {
        ReadMatchSame(s, t, st, pos);
      }
    case Finished(_, _) =>
  }

  lemma LengthAfter(s: seq<byte>, i: nat, v: nat, base: nat)
    requires i <= |s| && Length(s, i, v, base).Some?
    ensures i <= Length(s, i, v, base).value.1 <= |s|
  {
  }

  /** The way to a configuration depends only on what was read, and on how the stream begins. */
  lemma {:induction false} RunSame(s: seq<byte>, t: seq<byte>, n: nat)
    requires Run(s, n).Some? && Agree(s, t, Run(s, n).value.pos) && s != []
    requires s[0] == t[0] || (s[0] <= 17 && t[0] <= 17)
    ensures Run(t, n) == Run(s, n)
  {
    hide Step;
    if n == 0 {
      if s[0] >= 21 { SameLiterals(s, t, 1, s[0] - 17, [], AfterRun); }
    } else {
      StepForward(s, Run(s, n - 1).value);
      RunSame(s, t, n - 1);
      StepSame(s, t, Run(s, n - 1).value);
    }
  }

  lemma StepForward(s: seq<byte>, c: Config)
    requires Step(s, c).Some?
    ensures c.pos <= Step(s, c).value.pos <= |s|
  {
    StepSame(s, s, c);
  }

  lemma ReachSame(s: seq<byte>, t: seq<byte>, c: Config)
    requires Reach(s, c) && Agree(s, t, c.pos) && s != []
    requires s[0] == t[0] || (s[0] <= 17 && t[0] <= 17)
    ensures Reach(t, c)
  {
    var n: nat :| Run(s, n) == Some(c);
    RunSame(s, t, n);
  }

  lemma ReachNext(s: seq<byte>, c: Config)
    requires Reach(s, c) && Step(s, c).Some?
    ensures Reach(s, Step(s, c).value)
  {
    hide Step;
    var n: nat :| Run(s, n) == Some(c);
    assert Run(s, n + 1) == Step(s, c);
  }
}
