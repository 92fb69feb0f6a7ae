/** Hash chains over a sliding window, stated over absolute offsets in the input: window index p
    is offset base + p. */
module Chains {
  import opened Bits
  import opened Hash

  const WSIZE := 0x8000
  const WINDOW_SIZE := 0x10000
  const MIN_LOOKAHEAD := 262

  /** The three bytes at offset o have been read. */
  ghost predicate Real(input: seq<byte>, o: nat)
  {
    o + 2 < |input|
  }

  ghost function HashAt(input: seq<byte>, o: nat): (h: nat)
    requires Real(input, o)
    ensures h < HASH_SIZE
  {
    Hash3(input[o], input[o + 1], input[o + 2])
  }

  function Slot(prev: seq<ush>, p: nat): ush
    requires |prev| == WSIZE
  {
    prev[p % WSIZE]
  }

  /** q is no position, or an earlier one with the same hash as p. */
  ghost predicate Link(input: seq<byte>, base: nat, p: nat, q: nat)
  {
    q != 0 ==> q < p && (Real(input, base + p) ==> HashAt(input, base + q) == HashAt(input, base + p))
  }

  /** The latest position before n with the hash h, or 0; index 0 of the window stands for no position. */
  ghost function Last(input: seq<byte>, base: nat, h: nat, n: nat): (q: nat)
    ensures q == 0 || (q < n && Real(input, base + q) && HashAt(input, base + q) == h)
  {
    if n <= 1 then 0
    else if HasHash(input, base, h, n - 1) then n - 1
    else Last(input, base, h, n - 1)
  }

  ghost predicate HasHash(input: seq<byte>, base: nat, h: nat, q: nat)
  {
    1 <= q && Real(input, base + q) && HashAt(input, base + q) == h
  }

  /** q is the position before p with the same hash, or 0 if there is none. */
  ghost predicate Prior(input: seq<byte>, base: nat, p: nat, q: nat)
  {
    && Link(input, base, p, q)
    && (Real(input, base + p) ==> q == Last(input, base, HashAt(input, base + p), p))
  }

  /** The positions below ins were inserted; for the last WSIZE of them prev goes to the position before with the same
      hash. */
  ghost predicate Chained(prev: seq<ush>, input: seq<byte>, base: nat, ins: nat)
  {
    |prev| == WSIZE && forall p: nat {:trigger Slot(prev, p)} | p < ins <= p + WSIZE ::
        Prior(input, base, p, Slot(prev, p))
  }

  /** Each head is no position, or an inserted one with that hash: the latest, as long as all that were inserted have
      been read. */
  ghost predicate Head(input: seq<byte>, base: nat, ins: nat, h: nat, p: nat)
  {
    && (p != 0 ==> p < ins && (Real(input, base + p) ==> HashAt(input, base + p) == h))
    && (AllReal(input, base, ins) ==> p == Last(input, base, h, ins))
  }

  ghost predicate AllReal(input: seq<byte>, base: nat, ins: nat)
  {
    ins == 0 || Real(input, base + ins - 1)
  }

  ghost predicate Headed(head: seq<ush>, input: seq<byte>, base: nat, ins: nat)
  {
    |head| == HASH_SIZE && forall h: nat | h < HASH_SIZE :: Head(input, base, ins, h, head[h])
  }

  lemma SlotElsewhere(prev: seq<ush>, p: nat, s: nat, v: ush)
    requires |prev| == WSIZE && p < s < p + WSIZE
    ensures Slot(prev[s % WSIZE := v], p) == Slot(prev, p)
  {
  }

  /** INSERT_STRING on the tables: the new position is linked to the old head, which is the position before it. */
  lemma Insert(prev: seq<ush>, head: seq<ush>, input: seq<byte>, base: nat, s: nat, h: nat)
    requires Chained(prev, input, base, s) && Headed(head, input, base, s) && h < HASH_SIZE && s < 0x1_0000
    requires Real(input, base + s) ==> h == HashAt(input, base + s)
    ensures Chained(prev[s % WSIZE := head[h]], input, base, s + 1)
    ensures Headed(head[h := s], input, base, s + 1)
    ensures Prior(input, base, s, head[h])
  {
    hide HashAt, Last;
    assert Head(input, base, s, h, head[h]);
    var prev' := prev[s % WSIZE := head[h]];
    forall p: nat | p < s + 1 <= p + WSIZE
      ensures Prior(input, base, p, Slot(prev', p))
    {
      if p < s {
        SlotElsewhere(prev, p, s, head[h]);
        assert Prior(input, base, p, Slot(prev, p));
      }
    }
    var head' := head[h := s];
    forall g: nat | g < HASH_SIZE
      ensures Head(input, base, s + 1, g, head'[g])
    {
      assert Head(input, base, s, g, head[g]);
      if Real(input, base + s) { LastNext(input, base, g, s); }
    }
  }

  lemma LastNext(input: seq<byte>, base: nat, h: nat, s: nat)
    requires Real(input, base + s)
    ensures Last(input, base, h, s + 1) == if HashAt(input, base + s) == h then s else Last(input, base, h, s)
  {
    hide HashAt;
  }

  lemma {:induction false} LastMore(input: seq<byte>, more: seq<byte>, base: nat, h: nat, n: nat)
    requires AllReal(input, base, n)
    ensures Last(input + more, base, h, n) == Last(input, base, h, n)
  {
    hide Hash3;
    if n > 1 { LastMore(input, more, base, h, n - 1); }
  }

  /** More input changes nothing, because all that was inserted had been read. */
  lemma MoreInput(prev: seq<ush>, head: seq<ush>, input: seq<byte>, more: seq<byte>, base: nat, ins: nat)
    requires Chained(prev, input, base, ins) && Headed(head, input, base, ins) && (ins == 0 || base + ins + 1 < |input|)
    ensures Chained(prev, input + more, base, ins) && Headed(head, input + more, base, ins)
  {
    hide Hash3, Last;
    forall p: nat | p < ins <= p + WSIZE
      ensures Prior(input + more, base, p, Slot(prev, p))
    {
      assert Prior(input, base, p, Slot(prev, p));
      LastMore(input, more, base, HashAt(input, base + p), p);
    }
    forall h: nat | h < HASH_SIZE
      ensures Head(input + more, base, ins, h, head[h])
    {
      assert Head(input, base, ins, h, head[h]);
      LastMore(input, more, base, h, ins);
    }
  }

  /** What sliding does to an entry of the tables. */
  function SlidIndex(m: ush): ush
  {
    if m >= WSIZE then m - WSIZE else 0
  }

  ghost predicate Slid(a: seq<ush>, b: seq<ush>)
  {
    |a| == |b| && forall n | 0 <= n < |a| :: b[n] == SlidIndex(a[n])
  }

  /** The tables still fit after the window has moved. */
  lemma Slide(prev: seq<ush>, head: seq<ush>, prev': seq<ush>, head': seq<ush>, input: seq<byte>, base: nat, ins: nat)
    requires Chained(prev, input, base, ins) && Headed(head, input, base, ins) && ins >= WSIZE
    requires Slid(prev, prev') && Slid(head, head')
    ensures Chained(prev', input, base + WSIZE, ins - WSIZE) && Headed(head', input, base + WSIZE, ins - WSIZE)
  {
    hide HashAt, Last;
    forall p: nat | p < ins - WSIZE <= p + WSIZE
      ensures Prior(input, base + WSIZE, p, Slot(prev', p))
    {
      assert (p + WSIZE) % WSIZE == p % WSIZE;
      assert Prior(input, base, p + WSIZE, Slot(prev, p + WSIZE));
      if Real(input, base + WSIZE + p) { LastSlid(input, base, HashAt(input, base + WSIZE + p), p); }
    }
    forall h: nat | h < HASH_SIZE
      ensures Head(input, base + WSIZE, ins - WSIZE, h, head'[h])
    {
      assert Head(input, base, ins, h, head[h]);
      LastSlid(input, base, h, ins - WSIZE);
    }
  }

  lemma {:induction false} LastSlid(input: seq<byte>, base: nat, h: nat, n: nat)
    ensures Last(input, base + WSIZE, h, n) ==
            var q := Last(input, base, h, n + WSIZE); if q >= WSIZE then q - WSIZE else 0
  {
    hide HashAt;
    if n > 1 {
      LastSlid(input, base, h, n - 1);
      assert HasHash(input, base + WSIZE, h, n - 1) == HasHash(input, base, h, n - 1 + WSIZE);
    } else {
      assert n == 1 ==> Last(input, base, h, WSIZE + 1) == if HasHash(input, base, h, WSIZE) then WSIZE
                                                           else Last(input, base, h, WSIZE);
    }
  }

  lemma NothingInserted(prev: seq<ush>, head: seq<ush>, input: seq<byte>)
    requires |prev| == WSIZE && |head| == HASH_SIZE && forall h | 0 <= h < HASH_SIZE :: head[h] == 0
    ensures Chained(prev, input, 0, 0) && Headed(head, input, 0, 0)
  {
  }

  /** Following a link within the last WSIZE positions leads to an earlier position with the same hash. */
  lemma Follow(prev: seq<ush>, input: seq<byte>, base: nat, ins: nat, s: nat, cur: nat)
    requires Chained(prev, input, base, ins) && cur < s < ins <= cur + WSIZE && Link(input, base, s, cur) && cur != 0
    ensures Link(input, base, s, Slot(prev, cur)) && (Slot(prev, cur) != 0 ==> Slot(prev, cur) < cur)
    ensures Real(input, base + s) ==> Slot(prev, cur) == Last(input, base, HashAt(input, base + s), cur)
  {
    hide HashAt, Last;
    assert Prior(input, base, cur, Slot(prev, cur));
  }

  lemma PriorLink(input: seq<byte>, base: nat, s: nat, cur: nat)
    requires Prior(input, base, s, cur)
    ensures Link(input, base, s, cur) && (cur != 0 ==> cur < s)
  {
  }

  // ---------- matches ----------

  /** The i-th bytes from offsets o and p are the same, unless the second is not there yet. */
  ghost predicate SameByte(input: seq<byte>, o: nat, p: nat, i: nat)
    requires o <= p
  {
    p + i < |input| ==> input[o + i] == input[p + i]
  }

  ghost predicate Same(input: seq<byte>, o: nat, p: nat, len: nat)
    requires o <= p
  {
    forall i: nat | i < len :: SameByte(input, o, p, i)
  }

  lemma SamePush(input: seq<byte>, o: nat, p: nat, len: nat)
    requires o <= p && Same(input, o, p, len) && SameByte(input, o, p, len)
    ensures Same(input, o, p, len + 1)
  {
  }

  lemma SameShorter(input: seq<byte>, o: nat, p: nat, len: nat)
    requires o <= p && Same(input, o, p, len + 1)
    ensures Same(input, o, p, len)
  {
  }

  /** Two equal bytes and the same hash make three. */
  lemma SameThree(input: seq<byte>, base: nat, s: nat, cur: nat)
    requires Link(input, base, s, cur) && cur != 0
    requires SameByte(input, base + cur, base + s, 0) && SameByte(input, base + cur, base + s, 1)
    ensures Same(input, base + cur, base + s, 3)
  {
    hide Hash3;
    if Real(input, base + s) {
      var o, p := base + cur, base + s;
      ThirdByte(input[o], input[o + 1], input[o + 2], input[p + 2]);
    }
  }

  // ---------- what a search must not miss ----------

  /** The string at q agrees with that at s in more than len bytes, and in three at least, all inside the input. */
  ghost predicate Longer(input: seq<byte>, base: nat, s: nat, q: nat, len: nat)
  {
    var n := if len < 2 then 3 else len + 1;
    q < s && base + s + n <= |input| && Same(input, base + q, base + s, n)
  }

  /** How many positions from q on and before s have the hash h. */
  ghost function Rank(input: seq<byte>, base: nat, h: nat, q: nat, s: nat): nat
    decreases s - q
  {
    if q >= s then 0 else (if HasHash(input, base, h, q) then 1 else 0) + Rank(input, base, h, q + 1, s)
  }

  /** No position behind from has a longer match, if fewer than n with the hash of s lie between them. */
  ghost predicate Thorough(input: seq<byte>, base: nat, s: nat, from: nat, n: nat, len: nat)
  {
    Real(input, base + s) ==>
      forall q: nat | from < q < s && Rank(input, base, HashAt(input, base + s), q, s) <= n ::
               !Longer(input, base, s, q, len)
  }

  /** No position behind from has a longer match. */
  ghost predicate Tried(input: seq<byte>, base: nat, s: nat, from: nat, len: nat)
  {
    forall q: nat | from < q < s :: !Longer(input, base, s, q, len)
  }

  lemma LongerShorter(input: seq<byte>, base: nat, s: nat, q: nat, len: nat, len': nat)
    requires len <= len' && Longer(input, base, s, q, len')
    ensures Longer(input, base, s, q, len)
  {
  }

  lemma TriedLonger(input: seq<byte>, base: nat, s: nat, from: nat, len: nat, len': nat)
    requires len <= len' && Tried(input, base, s, from, len)
    ensures Tried(input, base, s, from, len')
  {
    hide Longer;
    forall q: nat | from < q < s
      ensures !Longer(input, base, s, q, len')
    {
      if Longer(input, base, s, q, len') { LongerShorter(input, base, s, q, len, len'); }
    }
  }

  /** A match of three bytes has the same hash. */
  lemma LongerHash(input: seq<byte>, base: nat, s: nat, q: nat, len: nat)
    requires Longer(input, base, s, q, len) && q >= 1
    ensures Real(input, base + s) && HasHash(input, base, HashAt(input, base + s), q)
  {
    hide Hash3;
    assert SameByte(input, base + q, base + s, 0) && SameByte(input, base + q, base + s, 1);
    assert SameByte(input, base + q, base + s, 2);
  }

  /** Between a position and the one before it with the same hash there is none to try. */
  lemma {:induction false} LastTried(input: seq<byte>, base: nat, s: nat, cur: nat, len: nat)
    requires 1 <= cur <= s && Tried(input, base, s, cur - 1, len) && Real(input, base + s)
    ensures Tried(input, base, s, Last(input, base, HashAt(input, base + s), cur), len)
    decreases cur
  {
    hide HashAt, Longer;
    if cur > 1 && !HasHash(input, base, HashAt(input, base + s), cur - 1) {
      forall q: nat | cur - 2 < q < s
        ensures !Longer(input, base, s, q, len)
      {
        if Longer(input, base, s, q, len) { LongerHash(input, base, s, q, len); }
      }
      LastTried(input, base, s, cur - 1, len);
    }
  }

  lemma {:induction false} LastRank(input: seq<byte>, base: nat, h: nat, s: nat, cur: nat)
    requires 1 <= cur <= s
    ensures Rank(input, base, h, Last(input, base, h, cur) + 1, s) == Rank(input, base, h, cur, s)
    decreases cur
  {
    hide HashAt;
    if cur > 1 && !HasHash(input, base, h, cur - 1) { LastRank(input, base, h, s, cur - 1); }
  }

  lemma {:induction false} RankUp(input: seq<byte>, base: nat, h: nat, q: nat, r: nat, s: nat)
    requires q <= r
    ensures Rank(input, base, h, q, s) >= Rank(input, base, h, r, s)
    decreases r - q
  {
    hide HasHash;
    if q < r { RankUp(input, base, h, q + 1, r, s); }
  }

  /** The start of a search: behind the latest position with the hash there is nothing to try. */
  lemma StartTried(input: seq<byte>, base: nat, s: nat, head: nat, len: nat)
    requires Prior(input, base, s, head) && s >= 1
    ensures Tried(input, base, s, head, len)
    ensures Real(input, base + s) ==> Rank(input, base, HashAt(input, base + s), head + 1, s) == 0
  {
    hide HashAt, Longer, Last;
    if Real(input, base + s) {
      LastTried(input, base, s, s, len);
      LastRank(input, base, HashAt(input, base + s), s, s);
    } else {
      forall q: nat | head < q < s
        ensures !Longer(input, base, s, q, len)
      {
        NoneLonger(input, base, s, q, len);
      }
    }
  }

  lemma NoneLonger(input: seq<byte>, base: nat, s: nat, q: nat, len: nat)
    requires !Real(input, base + s)
    ensures !Longer(input, base, s, q, len)
  {
  }

  /** One more position tried, and on to the one before it. */
  lemma StepTried(input: seq<byte>, base: nat, s: nat, cur: nat, next: nat, n: nat, len: nat)
    requires Link(input, base, s, cur) && 1 <= cur < s
    requires Tried(input, base, s, cur, len) && !Longer(input, base, s, cur, len)
    requires Real(input, base + s) ==> Rank(input, base, HashAt(input, base + s), cur + 1, s) == n
    requires Real(input, base + s) ==> next == Last(input, base, HashAt(input, base + s), cur)
    ensures Tried(input, base, s, next, len)
    ensures Real(input, base + s) ==> Rank(input, base, HashAt(input, base + s), next + 1, s) == n + 1
  {
    hide HashAt, Longer, Last;
    assert Tried(input, base, s, cur - 1, len);
    if Real(input, base + s) {
      LastTried(input, base, s, cur, len);
      LastRank(input, base, HashAt(input, base + s), s, cur);
    } else {
      forall q: nat | next < q < s
        ensures !Longer(input, base, s, q, len)
      {
        NoneLonger(input, base, s, q, len);
      }
    }
  }

  /** All have been tried that are not too far, or n of them. */
  lemma TriedThorough(input: seq<byte>, base: nat, s: nat, next: nat, from: nat, tried: nat, n: nat, len: nat)
    requires Tried(input, base, s, next, len) && Link(input, base, s, next) && (next <= from || tried >= n)
    requires Real(input, base + s) ==> Rank(input, base, HashAt(input, base + s), next + 1, s) == tried
    ensures Thorough(input, base, s, from, n, len)
  {
    hide HashAt, Longer;
    if Real(input, base + s) {
      var h := HashAt(input, base + s);
      forall q: nat | from < q < s && Rank(input, base, h, q, s) <= n
        ensures !Longer(input, base, s, q, len)
      {
        if q <= next { RankUp(input, base, h, q, next, s); }
      }
    }
  }
}
