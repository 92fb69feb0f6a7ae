/** What section 5.6.12 of the Debian Policy Manual asks of the order of versions. */
module VersionLaws {
  import opened NameTable
  import opened Versions

  const DOT: CChar := '.' as int
  const TILDE: CChar := '~' as int
  const COLON: CChar := ':' as int
  const HYPHEN: CChar := '-' as int
  const PLUS: CChar := '+' as int

  // ---------- what comes in front ----------

  predicate BeginsWithDigit(a: CString)
  {
    a != [] && IsDigit(a[0])
  }

  /** No number of s goes on behind it. */
  predicate EndsThere(s: CString, a: CString)
  {
    !BeginsWithDigit(a) || s == [] || !IsDigit(s[|s| - 1])
  }

  lemma {:induction false} DigitEndShift(s: CString, a: CString, j: nat)
    requires j <= |a|
    ensures DigitEnd(s + a, |s| + j) == |s| + DigitEnd(a, j)
    decreases |a| - j
  {
    if j < |a| && IsDigit(a[j]) { DigitEndShift(s, a, j + 1); }
  }

  lemma {:induction false} ValueShift(s: CString, a: CString, j: nat, e: nat)
    requires Digits(a, j, e)
    ensures Digits(s + a, |s| + j, |s| + e) && Value(s + a, |s| + j, |s| + e) == Value(a, j, e)
  {
    if j < e { ValueShift(s, a, j, e - 1); }
  }

  /** Behind a prefix the key is the same. */
  lemma {:induction false} KeyShift(s: CString, a: CString, j: nat)
    requires j <= |a|
    ensures Key(s + a, |s| + j) == Key(a, j) && InText(s + a, |s| + j) == InText(a, j)
    decreases |a| - j
  {
    if j < |a| {
      if IsDigit(a[j]) {
        DigitEndShift(s, a, j);
        ValueShift(s, a, j, DigitEnd(a, j));
        KeyShift(s, a, DigitEnd(a, j));
      } else {
        KeyShift(s, a, j + 1);
      }
    }
  }

  /** What two parts have in common in front does not matter, as long as it does not cut a number in two. */
  lemma {:induction false} CommonPrefix(s: CString, a: CString, b: CString, i: nat)
    requires i <= |s| && EndsThere(s, a) && EndsThere(s, b)
    ensures Compare(InText(s + a, i), InText(s + b, i)) == Compare(InText(a, 0), InText(b, 0))
    ensures Compare(Key(s + a, i), Key(s + b, i)) == Compare(InText(a, 0), InText(b, 0))
    decreases |s| - i
  {
    hide Compare;
    if i == |s| {
      KeyShift(s, a, 0);
      KeyShift(s, b, 0);
    } else if !IsDigit(s[i]) {
      CommonPrefix(s, a, b, i + 1);
      CompareStep(Order(s[i]), InText(s + a, i + 1), Order(s[i]), InText(s + b, i + 1));
    } else {
      var e := DigitEnd(s, i);
      NumberInFront(s, a, i);
      NumberInFront(s, b, i);
      CommonPrefix(s, a, b, e);
      CompareStep(Value(s, i, e), Key(s + a, e), Value(s, i, e), Key(s + b, e));
      CompareStep(0, AtNumber(s + a, i), 0, AtNumber(s + b, i));
    }
    EndedInText(s + a, i, s + b, i);
  }

  lemma NumberInFront(s: CString, a: CString, i: nat)
    requires i < |s| && IsDigit(s[i]) && EndsThere(s, a)
    ensures DigitEnd(s + a, i) == DigitEnd(s, i) && Value(s + a, i, DigitEnd(s, i)) == Value(s, i, DigitEnd(s, i))
    ensures InText(s + a, i) == [0] + AtNumber(s + a, i)
  {
    var e := DigitEnd(s, i);
    ValueSame(s, s + a, i, e);
    assert e == |s| ==> IsDigit(s[|s| - 1]);
    DigitEndUnique(s + a, i, e);
    NumberNext(s + a, i);
  }

  // ---------- characters ----------

  /** Neither a digit nor a tilde. */
  predicate IsOther(c: CChar)
  {
    !IsDigit(c) && c != TILDE
  }

  lemma FirstEntry(a: CString)
    requires a != [] && !IsDigit(a[0])
    ensures InText(a, 0) == [Order(a[0])] + InText(a, 1)
  {
  }

  /** The first characters in which two parts differ decide by their orders. */
  lemma OrdersDecide(s: CString, c: CChar, t: CString, d: CChar, u: CString)
    requires !IsDigit(c) && !IsDigit(d) && Order(c) != Order(d)
    ensures Compare(Key(s + ([c] + t), 0), Key(s + ([d] + u), 0)) == Sign(Order(c) - Order(d))
  {
    hide Compare, Order, InText;
    CommonPrefix(s, [c] + t, [d] + u, 0);
    FirstEntry([c] + t);
    FirstEntry([d] + u);
    CompareStep(Order(c), InText([c] + t, 1), Order(d), InText([d] + u, 1));
  }

  /** All the letters sort earlier than all the other characters. */
  lemma LetterFirst(s: CString, c: CChar, t: CString, d: CChar, u: CString)
    requires IsAlpha(c) && IsOther(d) && !IsAlpha(d)
    ensures Compare(Key(s + ([c] + t), 0), Key(s + ([d] + u), 0)) < 0
  {
    hide Compare, Key;
    OrdersDecide(s, c, t, d, u);
  }

  /** Among letters, and among the others, the code decides. */
  lemma CodeDecides(s: CString, c: CChar, t: CString, d: CChar, u: CString)
    requires IsOther(c) && IsOther(d) && IsAlpha(c) == IsAlpha(d) && c < d
    ensures Compare(Key(s + ([c] + t), 0), Key(s + ([d] + u), 0)) < 0
  {
    hide Compare, Key;
    OrdersDecide(s, c, t, d, u);
  }

  /** A tilde sorts before every other character that is no digit ... */
  lemma TildeBefore(s: CString, t: CString, d: CChar, u: CString)
    requires IsOther(d)
    ensures Compare(Key(s + ([TILDE] + t), 0), Key(s + ([d] + u), 0)) < 0
  {
    hide Compare, Key;
    OrdersDecide(s, TILDE, t, d, u);
  }

  /** ... and the end, and a number, before every character but a tilde, before which not even they sort. */
  lemma EndBefore(s: CString, a: CString, d: CChar, u: CString)
    requires !IsDigit(d) && (a == [] || BeginsWithDigit(a)) && EndsThere(s, a)
    ensures Compare(Key(s + a, 0), Key(s + ([d] + u), 0)) == if d == TILDE then 1 else -1
  {
    hide Compare;
    CommonPrefix(s, a, [d] + u, 0);
    FirstEntry([d] + u);
    var rest := InText(a, 0)[1..];
    NumberNext(a, 0);
    assert InText(a, 0) == [0] + rest;
    CompareStep(0, rest, Order(d), InText([d] + u, 1));
  }

  // ---------- numbers ----------

  function Decimal(n: nat): (s: CString)
    ensures s != [] && Digits(s, 0, |s|)
  {
    if n < 10 then [n + '0' as int] else Decimal(n / 10) + [n % 10 + '0' as int]
  }

  /** A number is read as what it says. */
  lemma {:induction false} DecimalValue(n: nat)
    ensures Value(Decimal(n), 0, |Decimal(n)|) == n
  {
    if n >= 10 {
      DecimalValue(n / 10);
      ValueSame(Decimal(n / 10), Decimal(n), 0, |Decimal(n / 10)|);
    } else {
      assert Value(Decimal(n), 0, 0) == 0;
    }
  }

  lemma DecimalRead(n: nat, t: CString)
    requires !BeginsWithDigit(t)
    ensures AtNumber(Decimal(n) + t, 0) == [n] + Key(t, 0)
  {
    hide Decimal, Key;
    var d := Decimal(n);
    DecimalValue(n);
    ValueSame(d, d + t, 0, |d|);
    DigitEndUnique(d + t, 0, |d|);
    KeyShift(d, t, 0);
  }

  /** At two numbers these decide by their values, and what follows them when they are the same. */
  lemma NumbersDecide(s: CString, m: nat, t: CString, n: nat, u: CString)
    requires !BeginsWithDigit(t) && !BeginsWithDigit(u) && (s == [] || !IsDigit(s[|s| - 1]))
    ensures Compare(Key(s + (Decimal(m) + t), 0), Key(s + (Decimal(n) + u), 0)) ==
            if m != n then Sign(m - n) else Compare(Key(t, 0), Key(u, 0))
  {
    hide Compare, Key, Decimal, AtNumber;
    var a, b := Decimal(m) + t, Decimal(n) + u;
    CommonPrefix(s, a, b, 0);
    NumberNext(a, 0);
    NumberNext(b, 0);
    DecimalRead(m, t);
    DecimalRead(n, u);
    CompareStep(0, AtNumber(a, 0), 0, AtNumber(b, 0));
    CompareStep(m, Key(t, 0), n, Key(u, 0));
  }

  // ---------- whole versions ----------

  lemma {:induction false} FirstAtIs(s: CString, c: CChar, i: nat, k: nat)
    requires i <= k <= |s| && (k < |s| ==> s[k] == c) && forall m | i <= m < k :: s[m] != c
    ensures FirstAt(s, c, i) == k
    decreases k - i
  {
    if i < k { FirstAtIs(s, c, i + 1, k); }
  }

  lemma {:induction false} LastBeforeIs(s: CString, c: CChar, n: nat, k: int)
    requires -1 <= k < n <= |s| && (k >= 0 ==> s[k] == c) && forall m | k < m < n :: s[m] != c
    ensures LastBefore(s, c, n) == k
  {
    if k < n - 1 { LastBeforeIs(s, c, n - 1, k); }
  }

  /** An upstream version and a revision with a hyphen between them, whatever hyphens the first has. */
  lemma SplitRevision(upstream: CString, revision: CString)
    requires HYPHEN !in revision
    ensures Upstream(upstream + [HYPHEN] + revision) == upstream && Revision(upstream + [HYPHEN] + revision) == revision
  {
    var s := upstream + [HYPHEN] + revision;
    forall m | |upstream| < m < |s|
      ensures s[m] != HYPHEN
    {
      assert s[m] == revision[m - |upstream| - 1];
    }
    LastBeforeIs(s, HYPHEN, |s|, |upstream|);
  }

  lemma NoRevision(upstream: CString)
    requires HYPHEN !in upstream
    ensures Upstream(upstream) == upstream && Revision(upstream) == []
  {
    if upstream != [] { LastBeforeIs(upstream, HYPHEN, |upstream|, -1); }
  }

  /** atoi of a number, with something behind it, */
  lemma AtoiDecimal(n: nat, t: CString)
    requires !BeginsWithDigit(t)
    ensures Atoi(Decimal(n) + t) == n % 0x1_0000_0000
  {
    hide Decimal;
    var d := Decimal(n);
    DecimalValue(n);
    ValueSame(d, d + t, 0, |d|);
    DigitEndUnique(d + t, 0, |d|);
    assert IsDigit(d[0]);
    assert SkipSpace(d + t, 0) == 0;
  }

  /** ... behind a sign, */
  lemma AtoiSigned(n: nat, t: CString)
    requires !BeginsWithDigit(t)
    ensures Atoi([PLUS] + (Decimal(n) + t)) == n % 0x1_0000_0000
    ensures var i: int := n; Atoi([HYPHEN] + (Decimal(n) + t)) == -i % 0x1_0000_0000
  {
    hide Decimal;
    SignedValue(PLUS, n, t);
    SignedValue(HYPHEN, n, t);
  }

  lemma SignedValue(sign: CChar, n: nat, t: CString)
    requires !BeginsWithDigit(t)
    ensures var s := [sign] + (Decimal(n) + t); Value(s, 1, DigitEnd(s, 1)) == n
  {
    hide Decimal;
    var d := Decimal(n);
    DecimalValue(n);
    ValueSame(d, d + t, 0, |d|);
    DigitEndUnique(d + t, 0, |d|);
    NumberShift(sign, d + t, 0);
  }

  /** ... and behind blanks. */
  lemma AtoiSpace(c: CChar, s: CString)
    requires c == 32 || 9 <= c <= 13
    ensures Atoi([c] + s) == Atoi(s)
  {
    hide DigitEnd, Value;
    var i := SkipSpace(s, 0);
    SkipShift(c, s, 0);
    NumberShift(c, s, i);
    if i < |s| { NumberShift(c, s, i + 1); }
  }

  lemma NumberShift(c: CChar, s: CString, j: nat)
    requires j <= |s|
    ensures Value([c] + s, 1 + j, DigitEnd([c] + s, 1 + j)) == Value(s, j, DigitEnd(s, j))
  {
    DigitEndShift([c], s, j);
    ValueShift([c], s, j, DigitEnd(s, j));
  }

  lemma {:induction false} SkipShift(c: CChar, s: CString, i: nat)
    requires i <= |s|
    ensures SkipSpace([c] + s, 1 + i) == 1 + SkipSpace(s, i)
    decreases |s| - i
  {
    if i < |s| && IsSpace(s[i]) { SkipShift(c, s, i + 1); }
  }

  lemma SplitEpoch(n: nat, rest: CString)
    ensures Epoch(Decimal(n) + [COLON] + rest) == n % 0x1_0000_0000 && AfterEpoch(Decimal(n) + [COLON] + rest) == rest
  {
    hide Decimal, Atoi;
    var d := Decimal(n);
    var s := d + [COLON] + rest;
    assert s == d + ([COLON] + rest);
    AtoiDecimal(n, [COLON] + rest);
    forall m | 0 <= m < |d|
      ensures s[m] != COLON
    {
      assert IsDigit(d[m]);
    }
    FirstAtIs(s, COLON, 0, |d|);
  }

  lemma NoEpoch(s: CString)
    requires COLON !in s
    ensures Epoch(s) == 0 && AfterEpoch(s) == s
  {
    FirstAtIs(s, COLON, 0, |s|);
  }

  /** An epoch, a colon, an upstream version, a hyphen and a revision are read as these. */
  lemma ParseWhole(n: nat, upstream: CString, revision: CString)
    requires HYPHEN !in revision
    ensures Parse(Decimal(n) + [COLON] + (upstream + [HYPHEN] + revision)) ==
            Version(n % 0x1_0000_0000, upstream, revision)
  {
    hide Decimal, Epoch, AfterEpoch, Upstream, Revision;
    SplitEpoch(n, upstream + [HYPHEN] + revision);
    SplitRevision(upstream, revision);
  }

  /** ... of which the epoch may be missing, */
  lemma ParseNoEpoch(upstream: CString, revision: CString)
    requires HYPHEN !in revision && COLON !in upstream && COLON !in revision
    ensures Parse(upstream + [HYPHEN] + revision) == Version(0, upstream, revision)
  {
    hide Epoch, AfterEpoch, Upstream, Revision;
    NoEpoch(upstream + [HYPHEN] + revision);
    SplitRevision(upstream, revision);
  }

  /** ... or the revision, */
  lemma ParseNoRevision(n: nat, upstream: CString)
    requires HYPHEN !in upstream
    ensures Parse(Decimal(n) + [COLON] + upstream) == Version(n % 0x1_0000_0000, upstream, [])
  {
    hide Decimal, Epoch, AfterEpoch, Upstream, Revision;
    SplitEpoch(n, upstream);
    NoRevision(upstream);
  }

  /** ... or both. */
  lemma ParseUpstream(upstream: CString)
    requires HYPHEN !in upstream && COLON !in upstream
    ensures Parse(upstream) == Version(0, upstream, [])
  {
    hide Epoch, AfterEpoch, Upstream, Revision;
    NoEpoch(upstream);
    NoRevision(upstream);
  }

  /** A later epoch decides against everything else, a later upstream version against any revision. */
  lemma EpochDecides(m: nat, a: CString, r: CString, n: nat, b: CString, q: CString)
    requires HYPHEN !in r && HYPHEN !in q && m < n < 0x1_0000_0000
    ensures var v, w := Decimal(m) + [COLON] + (a + [HYPHEN] + r), Decimal(n) + [COLON] + (b + [HYPHEN] + q);
            CompareVersions(Parse(v), Parse(w)) < 0
  {
    hide Parse, Decimal, Compare;
    ParseWhole(m, a, r);
    ParseWhole(n, b, q);
  }

  /** As in 1.0a, which is earlier than 1.0.1. */
  lemma LetterFirstVersions(s: CString, c: CChar, t: CString, d: CChar, u: CString)
    requires IsAlpha(c) && IsOther(d) && !IsAlpha(d)
    requires HYPHEN !in s + ([c] + t) && COLON !in s + ([c] + t) && HYPHEN !in s + ([d] + u) && COLON !in s + ([d] + u)
    ensures CompareVersions(Parse(s + ([c] + t)), Parse(s + ([d] + u))) < 0
  {
    hide Parse, Compare, Key;
    LetterFirst(s, c, t, d, u);
    ParseUpstream(s + ([c] + t));
    ParseUpstream(s + ([d] + u));
  }
}
