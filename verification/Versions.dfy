/** dpkg's order of versions. */
module Versions {
  import opened NameTable

  /** What a pointer into the string sees. */
  function At(s: CString, i: nat): nat
  {
    if i < |s| then s[i] else 0
  }

  predicate IsDigit(c: nat)
  {
    '0' as int <= c <= '9' as int
  }

  predicate IsAlpha(c: nat)
  {
    'A' as int <= c <= 'Z' as int || 'a' as int <= c <= 'z' as int
  }

  function Order(c: nat): int
  {
    if c == '~' as int then -1
    else if c == 0 || IsDigit(c) then 0
    else if IsAlpha(c) then c
    else c + 256
  }

  // ---------- what a version part means ----------

  /** Where the digits from i on end. */
  function DigitEnd(s: CString, i: nat): (e: nat)
    requires i <= |s|
    ensures i <= e <= |s| && !IsDigit(At(s, e)) && forall k | i <= k < e :: IsDigit(s[k])
    decreases |s| - i
  {
    if i < |s| && IsDigit(s[i]) then DigitEnd(s, i + 1) else i
  }

  function Digit(c: nat): nat
    requires IsDigit(c)
  {
    c - '0' as int
  }

  function Value(s: CString, i: nat, e: nat): nat
    requires i <= e <= |s| && forall k | i <= k < e :: IsDigit(s[k])
    decreases e
  {
    if i == e then 0 else 10 * Value(s, i, e - 1) + Digit(s[e - 1])
  }

  /** The part from i on: the orders of its non-digits, a 0, the number after them, and so on. */
  function Key(s: CString, i: nat): seq<int>
    requires i <= |s|
    decreases |s| - i, 1
  {
    if i == |s| then [] else InText(s, i)
  }

  /** The same, within a run of non-digits. */
  function InText(s: CString, i: nat): seq<int>
    requires i <= |s|
    decreases |s| - i, 0
  {
    if i < |s| && !IsDigit(s[i]) then [Order(s[i])] + InText(s, i + 1)
    else if i == |s| then [0, 0]
    else [0] + [Value(s, i, DigitEnd(s, i))] + Key(s, DigitEnd(s, i))
  }

  /** The same, at a number, which may be missing. */
  function AtNumber(s: CString, i: nat): seq<int>
    requires i <= |s|
  {
    [Value(s, i, DigitEnd(s, i))] + Key(s, DigitEnd(s, i))
  }

  function Head(a: seq<int>): int
  {
    if a == [] then 0 else a[0]
  }

  function Tail(a: seq<int>): seq<int>
  {
    if a == [] then [] else a[1..]
  }

  function Sign(x: int): int
  {
    if x < 0 then -1 else if x == 0 then 0 else 1
  }

  /** Lexicographically, what has ended going on with zeros. */
  function Compare(a: seq<int>, b: seq<int>): int
    decreases |a| + |b|
  {
    if a == [] && b == [] then 0
    else if Head(a) != Head(b) then Sign(Head(a) - Head(b))
    else Compare(Tail(a), Tail(b))
  }

  lemma CompareStep(x: int, a: seq<int>, y: int, b: seq<int>)
    ensures Compare([x] + a, [y] + b) == if x == y then Compare(a, b) else Sign(x - y)
  {
    assert ([x] + a)[1..] == a && ([y] + b)[1..] == b;
  }

  /** A part that has ended might as well be in a run of non-digits. */
  lemma EndedInText(s: CString, i: nat, t: CString, j: nat)
    requires i <= |s| && j <= |t|
    ensures Compare(Key(s, i), Key(t, j)) == Compare(InText(s, i), InText(t, j))
  {
    hide InText;
    if i == |s| { TextEnd(s); EndedLeft(InText(t, j)); EndedLeft(Key(t, j)); }
    if j == |t| { TextEnd(t); EndedRight(InText(s, i)); EndedRight(Key(s, i)); }
  }

  lemma TextEnd(s: CString)
    ensures InText(s, |s|) == [0, 0]
  {
  }

  lemma EndedLeft(a: seq<int>)
    ensures Compare([0, 0], a) == Compare([], a)
  {
    assert [0, 0][1..] == [0] && [0][1..] == [];
    if a != [] && a[0] == 0 { Ended(a[1..]); }
    Ended(a);
  }

  lemma EndedRight(a: seq<int>)
    ensures Compare(a, [0, 0]) == Compare(a, [])
  {
    CompareOpposite(a, [0, 0]);
    CompareOpposite(a, []);
    EndedLeft(a);
  }

  lemma Ended(a: seq<int>)
    ensures Compare([0], a) == Compare([], a)
  {
    assert [0][1..] == [];
  }

  // ---------- a total preorder ----------

  lemma {:induction false} CompareOpposite(a: seq<int>, b: seq<int>)
    ensures Compare(b, a) == -Compare(a, b)
    decreases |a| + |b|
  {
    if a != [] || b != [] { CompareOpposite(Tail(a), Tail(b)); }
  }

  lemma {:induction false} CompareTrans(a: seq<int>, b: seq<int>, c: seq<int>)
    requires Compare(a, b) <= 0 && Compare(b, c) <= 0
    ensures Compare(a, c) <= 0 && (Compare(a, c) == 0 <==> Compare(a, b) == 0 && Compare(b, c) == 0)
    decreases |a| + |b| + |c|
  {
    if a != [] || b != [] || c != [] {
      if Head(a) == Head(b) == Head(c) { CompareTrans(Tail(a), Tail(b), Tail(c)); }
    }
  }

  // ---------- what the comparison returns ----------

  /** Where two parts differ first: in the orders of two characters, or in two numbers. */
  datatype Difference = Same | Orders(x: int, y: int) | Numbers(v: nat, w: nat)

  function Differ(s: CString, i: nat, t: CString, j: nat): Difference
    requires i <= |s| && j <= |t|
    decreases |s| - i + |t| - j, 1
  {
    if i == |s| && j == |t| then Same else DifferInText(s, i, t, j)
  }

  /** The same, within runs of non-digits. */
  function DifferInText(s: CString, i: nat, t: CString, j: nat): Difference
    requires i <= |s| && j <= |t|
    decreases |s| - i + |t| - j, 0
  {
    if (i < |s| && !IsDigit(s[i])) || (j < |t| && !IsDigit(t[j])) then
      var x, y := Order(At(s, i)), Order(At(t, j));
      if x != y then Orders(x, y) else DifferInText(s, i + 1, t, j + 1)
    else if i == |s| && j == |t| then Same
    else
      var e, f := DigitEnd(s, i), DigitEnd(t, j);
      if Value(s, i, e) != Value(t, j, f) then Numbers(Value(s, i, e), Value(t, j, f)) else Differ(s, e, t, f)
  }

  /** The same, at two numbers, which may be missing. */
  function DifferInNumber(s: CString, i: nat, t: CString, j: nat): Difference
    requires i <= |s| && j <= |t|
  {
    var e, f := DigitEnd(s, i), DigitEnd(t, j);
    if Value(s, i, e) != Value(t, j, f) then Numbers(Value(s, i, e), Value(t, j, f)) else Differ(s, e, t, f)
  }

  function DigitCount(v: nat): nat
  {
    if v == 0 then 0 else 1 + DigitCount(v / 10)
  }

  /** The difference of the first digits in which two equally long numbers differ. */
  function DigitGap(v: nat, w: nat): int
  {
    if v / 10 != w / 10 then DigitGap(v / 10, w / 10) else v - w
  }

  function NumberGap(v: nat, w: nat): int
  {
    if DigitCount(v) != DigitCount(w) then Sign(v - w) else DigitGap(v, w)
  }

  /** What is returned for a first difference. */
  function Gap(d: Difference): int
  {
    match d
    case Same => 0
    case Orders(x, y) => x - y
    case Numbers(v, w) => NumberGap(v, w)
  }

  /** A number without its last k digits. */
  function Front(v: nat, k: nat): nat
  {
    if k == 0 then v else Front(v / 10, k - 1)
  }

  /** Neighbouring orders; numbers of different lengths, or which differ by one at the first place where they do. */
  ghost predicate Close(d: Difference)
  {
    match d
    case Same => true
    case Orders(x, y) => x - y == 1 || y - x == 1
    case Numbers(v, w) => DigitCount(v) != DigitCount(w) || exists k: nat :: Neighbours(v, w, k)
  }

  ghost predicate Neighbours(v: nat, w: nat, k: nat)
  {
    Front(v, k) - Front(w, k) == 1 || Front(w, k) - Front(v, k) == 1
  }

  lemma {:induction false} GapNeighbours(v: nat, w: nat) returns (k: nat)
    ensures DigitGap(v, w) == Front(v, k) - Front(w, k)
  {
    if v / 10 != w / 10 {
      k := GapNeighbours(v / 10, w / 10);
      k := k + 1;
    } else {
      k := 0;
    }
  }

  lemma {:induction false} NeighboursGap(v: nat, w: nat, k: nat)
    requires Neighbours(v, w, k)
    ensures DigitGap(v, w) == 1 || DigitGap(v, w) == -1
    decreases k, v
  {
    if v / 10 != w / 10 {
      if k == 0 {
        assert Neighbours(v / 10, w / 10, 0);
        NeighboursGap(v / 10, w / 10, 0);
      } else {
        NeighboursGap(v / 10, w / 10, k - 1);
      }
    }
  }

  /** The result is one of -1, 0 and 1 exactly for close differences. */
  lemma GapRange(d: Difference)
    requires d.Numbers? ==> d.v != d.w
    requires d.Orders? ==> d.x != d.y
    ensures -1 <= Gap(d) <= 1 <==> Close(d)
    ensures Gap(d) == 0 <==> d.Same?
  {
    if d.Numbers? {
      var k := GapNeighbours(d.v, d.w);
      DigitGapSign(d.v, d.w);
      if DigitGap(d.v, d.w) == 1 || DigitGap(d.v, d.w) == -1 { assert Neighbours(d.v, d.w, k); }
      if m: nat :| Neighbours(d.v, d.w, m) { NeighboursGap(d.v, d.w, m); }
    }
  }

  // ---------- numbers ----------

  function Power10(n: nat): (p: nat)
    ensures p >= 1
  {
    if n == 0 then 1 else 10 * Power10(n - 1)
  }

  lemma {:induction false} Power10Up(m: nat, n: nat)
    requires m <= n
    ensures Power10(m) <= Power10(n)
  {
    if m < n { Power10Up(m, n - 1); }
  }

  ghost predicate Digits(s: CString, i: nat, e: nat)
  {
    i <= e <= |s| && forall k | i <= k < e :: IsDigit(s[k])
  }

  lemma {:induction false} ValueBelow(s: CString, i: nat, e: nat)
    requires Digits(s, i, e)
    ensures Value(s, i, e) < Power10(e - i)
  {
    if i < e { ValueBelow(s, i, e - 1); }
  }

  lemma {:induction false} ValueAbove(s: CString, i: nat, e: nat)
    requires Digits(s, i, e) && i < e && s[i] != '0' as int
    ensures Value(s, i, e) >= Power10(e - i - 1)
  {
    if i + 1 < e { ValueAbove(s, i, e - 1); }
  }

  /** Without leading zeros the longer number is the larger one. */
  lemma Longer(s: CString, i: nat, e: nat, t: CString, j: nat, f: nat)
    requires Digits(s, i, e) && Digits(t, j, f) && e - i > f - j && s[i] != '0' as int
    ensures Value(s, i, e) > Value(t, j, f)
  {
    ValueAbove(s, i, e);
    ValueBelow(t, j, f);
    Power10Up(f - j, e - i - 1);
  }

  lemma {:induction false} ZeroInFront(s: CString, i: nat, e: nat)
    requires Digits(s, i, e) && i < e && s[i] == '0' as int
    ensures Value(s, i, e) == Value(s, i + 1, e)
  {
    if i + 1 < e { ZeroInFront(s, i, e - 1); }
  }

  lemma {:induction false} DigitEndUnique(s: CString, i: nat, e: nat)
    requires Digits(s, i, e) && !IsDigit(At(s, e))
    ensures DigitEnd(s, i) == e
    decreases e - i
  {
    if i < e { DigitEndUnique(s, i + 1, e); }
  }

  // ---------- comparing keys ----------

  /** At two runs of non-digits: what the first characters decide. */
  lemma TextStep(s: CString, i: nat, t: CString, j: nat)
    requires i <= |s| && j <= |t|
    requires (i < |s| && !IsDigit(s[i])) || (j < |t| && !IsDigit(t[j]))
    ensures var x, y := Order(At(s, i)), Order(At(t, j));
            && (x != y ==> Compare(InText(s, i), InText(t, j)) == Sign(x - y))
            && (x == y ==> i < |s| && j < |t|
                           && Compare(InText(s, i), InText(t, j)) == Compare(InText(s, i + 1), InText(t, j + 1)))
  {
    hide Compare, Key;
    var a, b := Rest(s, i), Rest(t, j);
    CompareStep(Order(At(s, i)), a, Order(At(t, j)), b);
  }

  /** What follows the first entry within a run of non-digits. */
  ghost function Rest(s: CString, i: nat): (a: seq<int>)
    requires i <= |s|
    ensures InText(s, i) == [Order(At(s, i))] + a
    ensures i < |s| && !IsDigit(s[i]) ==> a == InText(s, i + 1)
  {
    InText(s, i)[1..]
  }

  /** At two numbers, or where they are missing. */
  lemma TextDone(s: CString, i: nat, t: CString, j: nat)
    requires i <= |s| && j <= |t| && (i < |s| ==> IsDigit(s[i])) && (j < |t| ==> IsDigit(t[j]))
    ensures Compare(InText(s, i), InText(t, j)) == Compare(AtNumber(s, i), AtNumber(t, j))
  {
    hide Compare, Key, AtNumber;
    NumberNext(s, i);
    NumberNext(t, j);
    CompareStep(0, AtNumber(s, i), 0, AtNumber(t, j));
  }

  lemma NumberNext(s: CString, i: nat)
    requires i <= |s| && (i < |s| ==> IsDigit(s[i]))
    ensures InText(s, i) == [0] + AtNumber(s, i)
  {
    if i < |s| {
      assert [0] + [Value(s, i, DigitEnd(s, i))] + Key(s, DigitEnd(s, i)) == [0] + AtNumber(s, i);
    }
  }

  // ---------- comparing in one pass ----------

  /** The first difference decides the order of the keys. */
  lemma {:induction false} DifferDecides(s: CString, i: nat, t: CString, j: nat)
    requires i <= |s| && j <= |t|
    ensures Sign(Gap(Differ(s, i, t, j))) == Compare(Key(s, i), Key(t, j))
    decreases |s| - i + |t| - j, 1
  {
    hide Key, InText, Order, Value, DifferInText, NumberGap;
    if i == |s| && j == |t| {
      BothEnded(s, t);
    } else {
      EndedInText(s, i, t, j);
      TextDecides(s, i, t, j);
    }
  }

  lemma {:induction false} TextDecides(s: CString, i: nat, t: CString, j: nat)
    requires i <= |s| && j <= |t|
    ensures Sign(Gap(DifferInText(s, i, t, j))) == Compare(InText(s, i), InText(t, j))
    decreases |s| - i + |t| - j, 0
  {
    hide Key, InText, Compare, Order, AtNumber;
    if (i < |s| && !IsDigit(s[i])) || (j < |t| && !IsDigit(t[j])) {
      TextStep(s, i, t, j);
      if Order(At(s, i)) == Order(At(t, j)) { TextDecides(s, i + 1, t, j + 1); }
    } else {
      TextDone(s, i, t, j);
      var e, f := DigitEnd(s, i), DigitEnd(t, j);
      NumberDecides(s, i, t, j);
      if i == |s| && j == |t| { BothEnded(s, t); } else { DifferDecides(s, e, t, f); }
    }
  }

  lemma NumberDecides(s: CString, i: nat, t: CString, j: nat)
    requires i <= |s| && j <= |t|
    ensures var e, f := DigitEnd(s, i), DigitEnd(t, j);
            && Compare(AtNumber(s, i), AtNumber(t, j)) ==
               (if Value(s, i, e) != Value(t, j, f) then Sign(Value(s, i, e) - Value(t, j, f))
                else Compare(Key(s, e), Key(t, f)))
            && Sign(NumberGap(Value(s, i, e), Value(t, j, f))) == Sign(Value(s, i, e) - Value(t, j, f))
  {
    hide Key, Compare, Value;
    var e, f := DigitEnd(s, i), DigitEnd(t, j);
    CompareStep(Value(s, i, e), Key(s, e), Value(t, j, f), Key(t, f));
    DigitGapSign(Value(s, i, e), Value(t, j, f));
  }

  lemma {:induction false} DigitGapSign(v: nat, w: nat)
    ensures Sign(DigitGap(v, w)) == Sign(v - w)
  {
    if v / 10 != w / 10 { DigitGapSign(v / 10, w / 10); }
  }

  lemma BothEnded(s: CString, t: CString)
    ensures Compare(Key(s, |s|), Key(t, |t|)) == 0
    ensures DifferInNumber(s, |s|, t, |t|) == DifferInText(s, |s|, t, |t|) == Same
  {
  }

  lemma TextOver(s: CString, i: nat, t: CString, j: nat)
    requires i <= |s| && j <= |t| && (i < |s| ==> IsDigit(s[i])) && (j < |t| ==> IsDigit(t[j]))
    ensures DifferInText(s, i, t, j) == DifferInNumber(s, i, t, j)
  {
    hide Value;
    if i == |s| && j == |t| { BothEnded(s, t); }
  }

  /** What has been read of two numbers that are equally long so far, and the first difference of their digits. */
  ghost predicate SameLength(s: CString, i: nat, e: nat, t: CString, j: nat, f: nat, firstDiff: int)
  {
    Digits(s, i, e) && Digits(t, j, f) && e - i == f - j && firstDiff == DigitGap(Value(s, i, e), Value(t, j, f))
  }

  lemma NextDigits(s: CString, i: nat, e: nat, t: CString, j: nat, f: nat, firstDiff: int)
    requires SameLength(s, i, e, t, j, f, firstDiff) && e < |s| && f < |t| && IsDigit(s[e]) && IsDigit(t[f])
    ensures SameLength(s, i, e + 1, t, j, f + 1, if firstDiff == 0 then s[e] as int - t[f] as int else firstDiff)
  {
    hide DigitGap, Sign;
    DigitGapPush(Value(s, i, e), Value(t, j, f), Digit(s[e]), Digit(t[f]));
  }

  lemma DigitGapPush(v: nat, w: nat, d: nat, e: nat)
    requires d < 10 && e < 10
    ensures DigitGap(10 * v + d, 10 * w + e) == if DigitGap(v, w) != 0 then DigitGap(v, w) else (d as int) - e
  {
    DigitGapSign(v, w);
    assert (10 * v + d) / 10 == v && (10 * w + e) / 10 == w;
  }

  /** Without leading zeros a number has as many digits as are written. */
  lemma {:induction false} CountDigits(s: CString, i: nat, e: nat)
    requires Digits(s, i, e) && At(s, i) != '0' as int
    ensures DigitCount(Value(s, i, e)) == e - i
  {
    if i < e {
      CountDigits(s, i, e - 1);
      if i < e - 1 { ValueAbove(s, i, e - 1); }
    }
  }

  /** Once both numbers are read as far as both go. */
  lemma NumbersRead(s: CString, i: nat, e: nat, t: CString, j: nat, f: nat, firstDiff: int)
    requires SameLength(s, i, e, t, j, f, firstDiff) && !(IsDigit(At(s, e)) && IsDigit(At(t, f)))
    requires At(s, i) != '0' as int && At(t, j) != '0' as int
    ensures var d := DifferInNumber(s, i, t, j);
            if IsDigit(At(s, e)) then Gap(d) == 1 else if IsDigit(At(t, f)) then Gap(d) == -1
            else if firstDiff != 0 then Gap(d) == firstDiff else d == Differ(s, e, t, f)
  {
    hide Differ, Value, DigitGap;
    var d, g := DigitEnd(s, i), DigitEnd(t, j);
    CountDigits(s, i, d);
    CountDigits(t, j, g);
    if IsDigit(At(s, e)) {
      DigitEndUnique(t, j, f);
      DigitEndFar(s, i, e);
      Longer(s, i, d, t, j, g);
    } else if IsDigit(At(t, f)) {
      DigitEndUnique(s, i, e);
      DigitEndFar(t, j, f);
      Longer(t, j, g, s, i, d);
    } else {
      DigitEndUnique(s, i, e);
      DigitEndUnique(t, j, f);
      DigitGapSign(Value(s, i, d), Value(t, j, g));
    }
  }

  lemma {:induction false} DigitEndFar(s: CString, i: nat, e: nat)
    requires Digits(s, i, e) && IsDigit(At(s, e))
    ensures DigitEnd(s, i) > e
    decreases e - i
  {
    if i < e { DigitEndFar(s, i + 1, e); }
  }

  lemma NothingRead(s: CString, i: nat, t: CString, j: nat)
    requires i <= |s| && j <= |t|
    ensures SameLength(s, i, i, t, j, j, 0)
  {
  }

  /** A leading zero does not count. */
  lemma SkipZero(s: CString, i: nat, t: CString, j: nat)
    requires i < |s| && s[i] == '0' as int && j <= |t|
    ensures DifferInNumber(s, i, t, j) == DifferInNumber(s, i + 1, t, j)
    ensures DifferInNumber(t, j, s, i) == DifferInNumber(t, j, s, i + 1)
  {
    hide Differ;
    ZeroInFront(s, i, DigitEnd(s, i + 1));
  }

  /** version_compare_part: the gap at the first difference, which has the sign of the comparison. */
  method VersionComparePart(val: CString, ref: CString) returns (r: int)
    ensures r == Gap(Differ(val, 0, ref, 0)) && Sign(r) == Compare(Key(val, 0), Key(ref, 0))
  {
    hide Compare, Key, Order, SameLength, DifferInNumber;
    DifferDecides(val, 0, ref, 0);
    ghost var d := Differ(val, 0, ref, 0);
    var i, j := 0, 0;
    while At(val, i) != 0 || At(ref, j) != 0
      invariant i <= |val| && j <= |ref| && d == Differ(val, i, ref, j)
      decreases |val| - i + |ref| - j
    {
      ghost var i0, j0 := i, j;
      while (At(val, i) != 0 && !IsDigit(At(val, i))) || (At(ref, j) != 0 && !IsDigit(At(ref, j)))
        invariant i0 <= i <= |val| && j0 <= j <= |ref| && d == DifferInText(val, i, ref, j)
        decreases |val| - i
      {
        TextStep(val, i, ref, j);
        var vc, rc := Order(At(val, i)), Order(At(ref, j));
        if vc != rc { return vc - rc; }
        i, j := i + 1, j + 1;
      }
      TextOver(val, i, ref, j);
      while At(val, i) == '0' as int
        invariant i0 <= i <= |val| && d == DifferInNumber(val, i, ref, j)
        decreases |val| - i
      {
        SkipZero(val, i, ref, j);
        i := i + 1;
      }
      while At(ref, j) == '0' as int
        invariant j0 <= j <= |ref| && d == DifferInNumber(val, i, ref, j)
        decreases |ref| - j
      {
        SkipZero(ref, j, val, i);
        j := j + 1;
      }
      var firstDiff: int := 0;
      ghost var i1, j1 := i, j;
      NothingRead(val, i, ref, j);
      while IsDigit(At(val, i)) && IsDigit(At(ref, j))
        invariant i1 <= i <= |val| && j1 <= j <= |ref| && SameLength(val, i1, i, ref, j1, j, firstDiff)
        decreases |val| - i
      {
        NextDigits(val, i1, i, ref, j1, j, firstDiff);
        if firstDiff == 0 { firstDiff := val[i] as int - ref[j] as int; }
        i, j := i + 1, j + 1;
      }
      NumbersRead(val, i1, i, ref, j1, j, firstDiff);
      if IsDigit(At(val, i)) { return 1; }
      if IsDigit(At(ref, j)) { return -1; }
      if firstDiff != 0 { return firstDiff; }
    }
    return 0;
  }

  /** A tilde sorts before anything, even before the end. */
  lemma {:induction false} TildeFirst(s: CString, t: CString, i: nat)
    requires i <= |s|
    ensures var u := s + ['~' as int] + t;
            Compare(Key(u, i), Key(s, i)) < 0 && Compare(InText(u, i), InText(s, i)) < 0
    decreases |s| - i
  {
    hide Compare;
    var u := s + ['~' as int] + t;
    if i == |s| {
      CompareStep(Order(u[i]), InText(u, i + 1), 0, [0]);
      assert [0] + [0] == [0, 0];
    } else if !IsDigit(s[i]) {
      TildeFirst(s, t, i + 1);
      CompareStep(Order(s[i]), InText(u, i + 1), Order(s[i]), InText(s, i + 1));
    } else {
      var e := DigitEnd(s, i);
      DigitEndUnique(u, i, e);
      ValueSame(s, u, i, e);
      TildeFirst(s, t, e);
      NumberNext(u, i);
      NumberNext(s, i);
      CompareStep(Value(s, i, e), Key(u, e), Value(s, i, e), Key(s, e));
      CompareStep(0, AtNumber(u, i), 0, AtNumber(s, i));
    }
    EndedInText(u, i, s, i);
  }

  lemma {:induction false} ValueSame(s: CString, u: CString, i: nat, e: nat)
    requires Digits(s, i, e) && s <= u
    ensures Digits(u, i, e) && Value(u, i, e) == Value(s, i, e)
  {
    if i < e { ValueSame(s, u, i, e - 1); }
  }

  // ---------- whole versions ----------

  /** Where c is first from i on, or the end. */
  function FirstAt(s: CString, c: CChar, i: nat): (k: nat)
    requires i <= |s|
    ensures i <= k <= |s| && (k < |s| ==> s[k] == c) && forall m | i <= m < k :: s[m] != c
    decreases |s| - i
  {
    if i < |s| && s[i] != c then FirstAt(s, c, i + 1) else i
  }

  /** Where c is last before n, or -1. */
  function LastBefore(s: CString, c: CChar, n: nat): (k: int)
    requires n <= |s|
    ensures -1 <= k < n && (k >= 0 ==> s[k] == c) && forall m | k < m < n :: s[m] != c
  {
    if n == 0 || s[n - 1] == c then n - 1 else LastBefore(s, c, n - 1)
  }

  predicate IsSpace(c: nat)
  {
    c == 32 || 9 <= c <= 13
  }

  function SkipSpace(s: CString, i: nat): (k: nat)
    requires i <= |s|
    ensures i <= k <= |s|
    decreases |s| - i
  {
    if i < |s| && IsSpace(s[i]) then SkipSpace(s, i + 1) else i
  }

  /** atoi, as an unsigned 32-bit number. */
  function Atoi(s: CString): nat
  {
    var i := SkipSpace(s, 0);
    var j := if i < |s| && (s[i] == '-' as int || s[i] == '+' as int) then i + 1 else i;
    var v: int := Value(s, j, DigitEnd(s, j));
    (if At(s, i) == '-' as int then -v else v) % 0x1_0000_0000
  }

  datatype Version = Version(epoch: nat, upstream: CString, revision: CString)

  /** The number before the first colon. */
  function Epoch(s: CString): nat
  {
    if FirstAt(s, ':' as int, 0) < |s| then Atoi(s) else 0
  }

  function AfterEpoch(s: CString): CString
  {
    var colon := FirstAt(s, ':' as int, 0);
    if colon < |s| then s[colon + 1..] else s
  }

  /** What is before the last hyphen, and what is after it. */
  function Upstream(s: CString): CString
  {
    var hyphen := LastBefore(s, '-' as int, |s|);
    if hyphen >= 0 then s[..hyphen] else s
  }

  function Revision(s: CString): CString
  {
    var hyphen := LastBefore(s, '-' as int, |s|);
    if hyphen >= 0 then s[hyphen + 1..] else []
  }

  function Parse(s: CString): Version
  {
    Version(Epoch(s), Upstream(AfterEpoch(s)), Revision(AfterEpoch(s)))
  }

  /** Epochs first, then upstream versions, then revisions. */
  function CompareVersions(a: Version, b: Version): int
  {
    if a.epoch != b.epoch then Sign(a.epoch - b.epoch)
    else
      var upstream := Compare(Key(a.upstream, 0), Key(b.upstream, 0));
      if upstream != 0 then upstream else Compare(Key(a.revision, 0), Key(b.revision, 0))
  }

  method TakeEpoch(ver: CString) returns (epoch: nat, rest: CString)
    ensures epoch == Epoch(ver) && rest == AfterEpoch(ver)
  {
    hide FirstAt, Atoi;
    epoch, rest := 0, ver;
    var colon := FirstAt(ver, ':' as int, 0);
    if colon < |ver| {
      epoch := Atoi(ver);
      rest := ver[colon + 1..];
    }
  }

  method ChopRevision(ver: CString) returns (upstream: CString, deb: CString)
    ensures upstream == Upstream(ver) && deb == Revision(ver)
  {
    hide LastBefore;
    upstream, deb := ver, [];
    var hyphen := LastBefore(ver, '-' as int, |ver|);
    if hyphen >= 0 {
      deb := ver[hyphen + 1..];
      upstream := ver[..hyphen];
    }
  }

  /** What version_compare returns: the gap at the first difference, of upstream versions before revisions. */
  function Result(a: Version, b: Version): int
  {
    if a.epoch != b.epoch then Sign(a.epoch - b.epoch)
    else
      var upstream := Gap(Differ(a.upstream, 0, b.upstream, 0));
      if upstream != 0 then upstream else Gap(Differ(a.revision, 0, b.revision, 0))
  }

  lemma {:induction false} DifferProper(s: CString, i: nat, t: CString, j: nat)
    requires i <= |s| && j <= |t|
    ensures var d := Differ(s, i, t, j); (d.Numbers? ==> d.v != d.w) && (d.Orders? ==> d.x != d.y)
    ensures var d := DifferInText(s, i, t, j); (d.Numbers? ==> d.v != d.w) && (d.Orders? ==> d.x != d.y)
    decreases |s| - i + |t| - j
  {
    hide Value, Order;
    if (i < |s| && !IsDigit(s[i])) || (j < |t| && !IsDigit(t[j])) {
      if Order(At(s, i)) == Order(At(t, j)) {
        TextStep(s, i, t, j);
        DifferProper(s, i + 1, t, j + 1);
      }
    } else if i < |s| || j < |t| {
      DifferProper(s, DigitEnd(s, i), t, DigitEnd(t, j));
    }
  }

  /** When the result is the -1, 0 or 1 that is promised: where the versions differ first they must be close. */
  lemma ResultRange(a: Version, b: Version)
    ensures -1 <= Result(a, b) <= 1 <==>
            a.epoch != b.epoch ||
            (if Differ(a.upstream, 0, b.upstream, 0).Same? then Close(Differ(a.revision, 0, b.revision, 0))
             else Close(Differ(a.upstream, 0, b.upstream, 0)))
  {
    hide Differ, Gap, Close;
    DifferProper(a.upstream, 0, b.upstream, 0);
    DifferProper(a.revision, 0, b.revision, 0);
    GapRange(Differ(a.upstream, 0, b.upstream, 0));
    GapRange(Differ(a.revision, 0, b.revision, 0));
  }

  /** ... which versions 1 and 3 are not. */
  lemma OneAndThree()
    ensures Result(Parse(['1' as int]), Parse(['3' as int])) == -2
  {
    hide Parse, Gap, Differ;
    OneDigit('1' as int);
    OneDigit('3' as int);
    OneDigitEach('1' as int, '3' as int);
  }

  lemma OneDigit(c: CChar)
    requires IsDigit(c)
    ensures Parse([c]) == Version(0, [c], []) && DigitEnd([c], 0) == 1 && Value([c], 0, 1) == Digit(c)
  {
    assert FirstAt([c], ':' as int, 0) == 1;
    assert LastBefore([c], '-' as int, 1) == -1;
  }

  lemma OneDigitEach(c: CChar, d: CChar)
    requires IsDigit(c) && IsDigit(d) && Digit(c) >= 1 && Digit(d) >= 1
    ensures Gap(Differ([c], 0, [d], 0)) == Digit(c) - Digit(d)
  {
    hide Order;
    OneDigit(c);
    OneDigit(d);
    var v: int, w: int := Digit(c), Digit(d);
    assert DigitCount(v) == 1 + DigitCount(0) == DigitCount(w) && DigitGap(v, w) == v - w;
    assert Differ([c], 0, [d], 0) == DifferInText([c], 0, [d], 0);
    if v == w { BothEnded([c], [d]); }
  }

  /** version_compare. */
  method VersionCompare(ver1: CString, ver2: CString) returns (r: int)
    ensures r == Result(Parse(ver1), Parse(ver2)) && Sign(r) == CompareVersions(Parse(ver1), Parse(ver2))
  {
    hide Compare, Key, Epoch, AfterEpoch, Upstream, Revision, Differ, Gap;
    var epoch1, rest1 := TakeEpoch(ver1);
    var epoch2, rest2 := TakeEpoch(ver2);
    if epoch1 < epoch2 { return -1; }
    if epoch1 > epoch2 { return 1; }
    var upstream1, deb1 := ChopRevision(rest1);
    var upstream2, deb2 := ChopRevision(rest2);
    r := VersionComparePart(upstream1, upstream2);
    if r == 0 {
      r := VersionComparePart(deb1, deb2);
    }
  }

  /** The order of versions is total: reversing it changes the sign, and it is transitive, ties included. */
  lemma VersionsOrdered(a: Version, b: Version, c: Version)
    ensures CompareVersions(b, a) == -CompareVersions(a, b) && CompareVersions(a, a) == 0
    ensures CompareVersions(a, b) <= 0 && CompareVersions(b, c) <= 0 ==>
              && CompareVersions(a, c) <= 0
              && (CompareVersions(a, c) == 0 <==> CompareVersions(a, b) == 0 && CompareVersions(b, c) == 0)
  {
    hide Compare, Key;
    var ua, ub, uc := Key(a.upstream, 0), Key(b.upstream, 0), Key(c.upstream, 0);
    var ra, rb, rc := Key(a.revision, 0), Key(b.revision, 0), Key(c.revision, 0);
    CompareOpposite(ua, ub);
    CompareOpposite(ra, rb);
    CompareOpposite(ua, ua);
    CompareOpposite(ra, ra);
    if Compare(ua, ub) <= 0 && Compare(ub, uc) <= 0 { CompareTrans(ua, ub, uc); }
    if Compare(ra, rb) <= 0 && Compare(rb, rc) <= 0 { CompareTrans(ra, rb, rc); }
  }

  // ---------- operators ----------

  datatype Operator = VerNull | VerEqual | VerLess | VerLessEqual | VerMore | VerMoreEqual | VerAny

  /** What an operator asks of two versions. */
  predicate Holds(a: CString, b: CString, op: Operator)
  {
    var c := CompareVersions(Parse(a), Parse(b));
    match op
    case VerNull => false
    case VerEqual => c == 0
    case VerLess => c < 0
    case VerLessEqual => c <= 0
    case VerMore => c > 0
    case VerMoreEqual => c >= 0
    case VerAny => true
  }

  /** test_version. */
  method TestVersion(version1: CString, version2: CString, op: Operator) returns (r: bool)
    ensures r == Holds(version1, version2, op)
  {
    hide CompareVersions, Parse;
    var result := VersionCompare(version1, version2);
    match op
    case VerAny => return true;
    case VerEqual => return result == 0;
    case VerLess => return result < 0;
    case VerLessEqual => return result <= 0;
    case VerMore => return result > 0;
    case VerMoreEqual => return result >= 0;
    case VerNull => return false;
  }

  /** The operators agree with one another, and bounds carry over: what is below a version is below a later one. */
  lemma OperatorsAgree(a: CString, b: CString, c: CString)
    ensures Holds(a, b, VerLess) <==> Holds(b, a, VerMore)
    ensures Holds(a, b, VerLessEqual) <==> Holds(b, a, VerMoreEqual)
    ensures Holds(a, b, VerMoreEqual) <==> !Holds(a, b, VerLess)
    ensures Holds(a, b, VerEqual) <==> Holds(a, b, VerLessEqual) && Holds(a, b, VerMoreEqual)
    ensures Holds(a, b, VerLessEqual) && Holds(b, c, VerLess) ==> Holds(a, c, VerLess)
  {
    hide CompareVersions, Parse;
    VersionsOrdered(Parse(a), Parse(b), Parse(c));
    VersionsOrdered(Parse(a), Parse(c), Parse(b));
  }
}
