/** Codes in general: any codewords none of which begins another obey Kraft's inequality, so the
    lengths of an uncut merge tree are best among all prefix codes. */
module PrefixCodes {
  import opened Bits
  import opened Sums
  import opened Canonical
  import opened HuffmanShape
  import opened LengthCounts
  import opened Optimal

  /** No word begins another one. */
  ghost predicate Unambiguous(ws: seq<seq<bool>>)
  {
    forall i, j | 0 <= i < |ws| && 0 <= j < |ws| && i != j :: !(ws[i] <= ws[j])
  }

  ghost predicate Short(ws: seq<seq<bool>>, m: nat)
  {
    forall i | 0 <= i < |ws| :: |ws[i]| <= m
  }

  /** The share of all m-bit strings that begin with one of the words. */
  ghost function Share(ws: seq<seq<bool>>, m: nat): nat
    requires Short(ws, m)
  {
    if ws == [] then 0
    else Share(ws[..|ws| - 1], m) + Pow2(m - |ws[|ws| - 1]|)
  }

  /** The rests of the words that begin with a bit. */
  ghost function After(ws: seq<seq<bool>>, b: bool): (r: seq<seq<bool>>)
    ensures |r| <= |ws|
  {
    if ws == [] then []
    else
      var rest, w := After(ws[..|ws| - 1], b), ws[|ws| - 1];
      if w != [] && w[0] == b then rest + [w[1..]] else rest
  }

  /** The word that the i-th of the rests comes from. */
  lemma {:induction false} AfterFrom(ws: seq<seq<bool>>, b: bool, i: nat) returns (k: nat)
    requires i < |After(ws, b)|
    ensures k < |ws| && ws[k] == [b] + After(ws, b)[i]
  {
    if i < |After(ws[..|ws| - 1], b)| {
      k := AfterFrom(ws[..|ws| - 1], b, i);
    } else {
      k := |ws| - 1;
      assert ws[k] == [b] + ws[k][1..];
    }
  }

  lemma {:induction false} AfterUnambiguous(ws: seq<seq<bool>>, b: bool)
    requires Unambiguous(ws)
    ensures Unambiguous(After(ws, b))
  {
    if ws != [] {
      var front, w, r := ws[..|ws| - 1], ws[|ws| - 1], After(ws, b);
      var rest := After(front, b);
      AfterUnambiguous(front, b);
      forall i, j | 0 <= i < |r| && 0 <= j < |r| && i != j
        ensures !(r[i] <= r[j])
      {
        if i < |rest| && j < |rest| {
          assert !(rest[i] <= rest[j]);
        } else if i < |rest| {
          var k := AfterFrom(front, b, i);
          LastDiffers(ws, b, k, r[i]);
        } else {
          var k := AfterFrom(front, b, j);
          LastDiffers(ws, b, k, r[j]);
        }
      }
    }
  }

  lemma LastDiffers(ws: seq<seq<bool>>, b: bool, k: nat, rest: seq<bool>)
    requires Unambiguous(ws) && k < |ws| - 1 && ws[k] == [b] + rest && ws[|ws| - 1] != [] && ws[|ws| - 1][0] == b
    ensures !(rest <= ws[|ws| - 1][1..]) && !(ws[|ws| - 1][1..] <= rest)
  {
    var w := ws[|ws| - 1];
    assert w == [b] + w[1..];
    assert !(ws[k] <= w) && !(w <= ws[k]);
  }

  lemma {:induction false} AfterShort(ws: seq<seq<bool>>, b: bool, m: nat)
    requires Short(ws, m) && m >= 1
    ensures Short(After(ws, b), m - 1)
  {
    if ws != [] { AfterShort(ws[..|ws| - 1], b, m); }
  }

  /** A word that is not empty belongs to one of the halves. */
  lemma {:induction false} ShareSplit(ws: seq<seq<bool>>, m: nat)
    requires Short(ws, m) && m >= 1 && forall i | 0 <= i < |ws| :: ws[i] != []
    ensures Short(After(ws, false), m - 1) && Short(After(ws, true), m - 1)
    ensures Share(ws, m) == Share(After(ws, false), m - 1) + Share(After(ws, true), m - 1)
  {
    hide Pow2, Share, After;
    AfterShort(ws, false, m);
    AfterShort(ws, true, m);
    if ws != [] {
      var rest, w := ws[..|ws| - 1], ws[|ws| - 1];
      ShareSplit(rest, m);
      SharePush(rest, w, m);
      AfterPush(rest, w);
      SharePush(After(rest, w[0]), w[1..], m - 1);
      assert rest + [w] == ws;
    } else {
      NoWords(m);
    }
  }

  lemma NoWords(m: nat)
    requires m >= 1
    ensures After([], false) == After([], true) == [] && Share([], m) == Share([], m - 1) == 0
  {
  }

  lemma SharePush(ws: seq<seq<bool>>, w: seq<bool>, m: nat)
    requires Short(ws, m) && |w| <= m
    ensures Short(ws + [w], m) && Share(ws + [w], m) == Share(ws, m) + Pow2(m - |w|)
  {
    hide Pow2;
    assert (ws + [w])[..|ws|] == ws;
  }

  lemma AfterPush(ws: seq<seq<bool>>, w: seq<bool>)
    requires w != []
    ensures After(ws + [w], w[0]) == After(ws, w[0]) + [w[1..]]
    ensures After(ws + [w], !w[0]) == After(ws, !w[0])
  {
    assert (ws + [w])[..|ws|] == ws;
  }

  /** Kraft's inequality. */
  lemma {:induction false} ShareBound(ws: seq<seq<bool>>, m: nat)
    requires Short(ws, m) && Unambiguous(ws)
    ensures Share(ws, m) <= Pow2(m)
    decreases m
  {
    hide Pow2, Share;
    if ws == [] {
      NoShare(m);
    } else if m == 0 {
      OnlyWord(ws, 0, m);
    } else if i :| 0 <= i < |ws| && ws[i] == [] {
      OnlyWord(ws, i, m);
    } else {
      ShareSplit(ws, m);
      AfterUnambiguous(ws, false);
      AfterUnambiguous(ws, true);
      ShareBound(After(ws, false), m - 1);
      ShareBound(After(ws, true), m - 1);
      TwiceHalf(m);
    }
  }

  lemma TwiceHalf(m: nat)
    requires m >= 1
    ensures Pow2(m) == 2 * Pow2(m - 1)
  {
  }

  lemma NoShare(m: nat)
    ensures Share([], m) == 0
  {
  }

  /** The empty word leaves no room for another one. */
  lemma OnlyWord(ws: seq<seq<bool>>, i: nat, m: nat)
    requires Unambiguous(ws) && i < |ws| && ws[i] == [] && Short(ws, m)
    ensures Share(ws, m) <= Pow2(m)
  {
    hide Unambiguous;
    if |ws| > 1 { NotEmpty(ws, i, if i == 0 then 1 else 0); }
    assert ws[..0] == [];
  }

  lemma NotEmpty(ws: seq<seq<bool>>, i: nat, j: nat)
    requires Unambiguous(ws) && i < |ws| && j < |ws| && i != j
    ensures ws[i] != []
  {
    assert !(ws[i] <= ws[j]);
  }

  // ---------- codes for symbols ----------

  /** Codewords for the symbols that occur. */
  ghost predicate PrefixCode(f: seq<nat>, words: seq<seq<bool>>)
  {
    && |words| == |f| && (forall n | 0 <= n < |f| && f[n] > 0 :: words[n] != [])
    && forall a, b | 0 <= a < |f| && 0 <= b < |f| && a != b && f[a] > 0 && f[b] > 0 :: !(words[a] <= words[b])
  }

  ghost function WordLens(f: seq<nat>, words: seq<seq<bool>>): (l: seq<nat>)
    requires |words| == |f|
    ensures |l| == |f|
  {
    seq(|f|, n requires 0 <= n < |f| => if f[n] > 0 then |words[n]| else 0)
  }

  /** The words of the symbols below n that occur. */
  ghost function UsedWords(f: seq<nat>, words: seq<seq<bool>>, n: nat): seq<seq<bool>>
    requires |words| == |f| && n <= |f|
  {
    if n == 0 then []
    else if f[n - 1] > 0 then UsedWords(f, words, n - 1) + [words[n - 1]]
    else UsedWords(f, words, n - 1)
  }

  lemma {:induction false} UsedFrom(f: seq<nat>, words: seq<seq<bool>>, n: nat, i: nat) returns (k: nat)
    requires |words| == |f| && n <= |f| && i < |UsedWords(f, words, n)|
    ensures k < n && f[k] > 0 && words[k] == UsedWords(f, words, n)[i]
  {
    if f[n - 1] > 0 && i == |UsedWords(f, words, n)| - 1 {
      k := n - 1;
    } else {
      k := UsedFrom(f, words, n - 1, i);
    }
  }

  lemma {:induction false} UsedUnambiguous(f: seq<nat>, words: seq<seq<bool>>, n: nat)
    requires PrefixCode(f, words) && n <= |f|
    ensures Unambiguous(UsedWords(f, words, n))
  {
    if n != 0 {
      UsedUnambiguous(f, words, n - 1);
      var ws, before := UsedWords(f, words, n), UsedWords(f, words, n - 1);
      forall i, j | 0 <= i < |ws| && 0 <= j < |ws| && i != j
        ensures !(ws[i] <= ws[j])
      {
        if i < |before| && j < |before| {
          assert !(before[i] <= before[j]);
        } else if i < |before| {
          var k := UsedFrom(f, words, n - 1, i);
        } else {
          var k := UsedFrom(f, words, n - 1, j);
        }
      }
    }
  }

  lemma {:induction false} UsedShare(f: seq<nat>, words: seq<seq<bool>>, m: nat, n: nat)
    requires PrefixCode(f, words) && n <= |f| && forall k | 0 <= k < |f| && f[k] > 0 :: |words[k]| <= m
    ensures Short(UsedWords(f, words, n), m)
    ensures KraftSum(WordLens(f, words)[..n], m) == Share(UsedWords(f, words, n), m)
  {
    hide KraftSum, Pow2, Share, Unambiguous;
    var l := WordLens(f, words);
    if n == 0 {
      assert l[..0] == [];
      KraftSumEmpty(m);
      NoShare(m);
    } else {
      UsedShare(f, words, m, n - 1);
      assert l[..n] == l[..n - 1] + [l[n - 1]];
      KraftSumPush(l[..n - 1], l[n - 1], m);
      if f[n - 1] > 0 { SharePush(UsedWords(f, words, n - 1), words[n - 1], m); }
    }
  }

  lemma {:induction false} LongestWord(f: seq<nat>, words: seq<seq<bool>>, n: nat) returns (m: nat)
    requires |words| == |f| && n <= |f|
    ensures forall k | 0 <= k < n && f[k] > 0 :: |words[k]| <= m
  {
    if n == 0 {
      m := 0;
    } else {
      m := LongestWord(f, words, n - 1);
      if |words[n - 1]| > m { m := |words[n - 1]|; }
    }
  }

  /** Huffman's theorem for the lengths of build_tree: no prefix code for the symbols that occur takes fewer
      bits in all. */
  lemma BestPrefixCode(f: seq<nat>, lens: seq<nat>, words: seq<seq<bool>>)
    requires Cheapest(f, lens) && PrefixCode(f, words)
    ensures |lens| == |f| && Sum(Cost(f, lens), 0, |f|) <= Sum(Cost(f, WordLens(f, words)), 0, |f|)
  {
    hide Share, KraftSum, Sum, Cost;
    var l := WordLens(f, words);
    var m := LongestWord(f, words, |f|);
    UsedShare(f, words, m, |f|);
    UsedUnambiguous(f, words, |f|);
    ShareBound(UsedWords(f, words, |f|), m);
    assert l[..|f|] == l;
    assert Encodes(f, l, m);
  }
}
