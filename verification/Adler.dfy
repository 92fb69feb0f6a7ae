/** lzop's Adler-32 with deferred modulo, against section 2.2 of RFC 1950. */
module Adler {
  import opened Bits

  const LZO_BASE := 65521
  const LZO_NMAX := 5552

  /** Both sums after the bytes of the data, reduced after every byte. */
  function Sums(a: nat, b: nat, data: seq<byte>): (s: (nat, nat))
    ensures data != [] ==> s.0 < LZO_BASE && s.1 < LZO_BASE
  {
    if data == [] then (a, b)
    else
      var s := Sums(a, b, data[..|data| - 1]);
      var a' := (s.0 + data[|data| - 1]) % LZO_BASE;
      (a', (s.1 + a') % LZO_BASE)
  }

  /** The checksum of section 2.2 of RFC 1950, continued from another one. */
  function Adler32(adler: ulg, data: seq<byte>): nat
  {
    var s := Sums(adler % 0x1_0000 % LZO_BASE, adler / 0x1_0000 % LZO_BASE, data);
    s.1 * 0x1_0000 + s.0
  }

  /** Checksumming in pieces. */
  lemma {:induction false} SumsConcat(a: nat, b: nat, x: seq<byte>, y: seq<byte>)
    ensures Sums(a, b, x + y) == Sums(Sums(a, b, x).0, Sums(a, b, x).1, y)
  {
    if y == [] {
      assert x + y == x;
    } else {
      assert (x + y)[..|x + y| - 1] == x + y[..|y| - 1];
      SumsConcat(a, b, x, y[..|y| - 1]);
    }
  }

  /** The checksum of a concatenation is that of the second part continued from the first. */
  lemma Adler32Concat(adler: ulg, x: seq<byte>, y: seq<byte>)
    requires x != []
    ensures Adler32(adler, x) < 0x1_0000_0000
    ensures Adler32(Adler32(adler, x), y) == Adler32(adler, x + y)
  {
    hide Sums;
    var s := Sums(adler % 0x1_0000 % LZO_BASE, adler / 0x1_0000 % LZO_BASE, x);
    SumsConcat(adler % 0x1_0000 % LZO_BASE, adler / 0x1_0000 % LZO_BASE, x, y);
    Halves(s.0, s.1);
  }

  lemma Halves(a: nat, b: nat)
    requires a < LZO_BASE && b < LZO_BASE
    ensures var v := b * 0x1_0000 + a; v < 0x1_0000_0000 && v % 0x1_0000 % LZO_BASE == a && v / 0x1_0000 % LZO_BASE == b
  {
  }

  /** The sums without any reduction. */
  function Raw(a: nat, b: nat, data: seq<byte>): (nat, nat)
  {
    if data == [] then (a, b)
    else
      var s := Raw(a, b, data[..|data| - 1]);
      var a' := s.0 + data[|data| - 1];
      (a', s.1 + a')
  }

  /** Reducing once at the end is reducing after every byte. */
  lemma {:induction false} RawReduced(a: nat, b: nat, data: seq<byte>)
    ensures var r := Raw(a, b, data);
            (r.0 % LZO_BASE, r.1 % LZO_BASE) == Sums(a % LZO_BASE, b % LZO_BASE, data)
  {
    if data != [] {
      var rest := data[..|data| - 1];
      RawReduced(a, b, rest);
      var r, s := Raw(a, b, rest), Sums(a % LZO_BASE, b % LZO_BASE, rest);
      ModSum(r.0, data[|data| - 1]);
      ModSum(r.1, r.0 + data[|data| - 1]);
      ModSum(r.0 + data[|data| - 1], s.1);
    }
  }

  lemma ModSum(x: nat, y: nat)
    ensures (x % LZO_BASE + y) % LZO_BASE == (x + y) % LZO_BASE
  {
  }

  /** n bytes cannot make the sums grow past these bounds. */
  lemma {:induction false} RawBound(a: nat, b: nat, data: seq<byte>)
    ensures var n := |data|; var r := Raw(a, b, data);
            r.0 <= a + 255 * n && 2 * r.1 <= 2 * b + 2 * n * a + 255 * n * (n + 1)
  {
    if data != [] {
      RawBound(a, b, data[..|data| - 1]);
      OneMore(|data|, a);
    }
  }

  lemma OneMore(n: nat, a: nat)
    requires n > 0
    ensures 255 * n * (n + 1) == 255 * (n - 1) * (n - 1 + 1) + 510 * n && 2 * n * a == 2 * (n - 1) * a + 2 * a
  {
  }

  /** A run of LZO_NMAX bytes never exceeds 32 bits, from any 16-bit sums. */
  lemma RunFits(a: nat, b: nat, data: seq<byte>)
    requires a < 0x1_0000 && b < 0x1_0000 && |data| <= LZO_NMAX
    ensures Raw(a, b, data).0 < 0x1_0000_0000 && Raw(a, b, data).1 < 0x1_0000_0000
  {
    RawBound(a, b, data);
    var n := |data|;
    assert n * (n + 1) <= LZO_NMAX * (LZO_NMAX + 1);
    assert n * a <= LZO_NMAX * 0xffff;
    assert 2 * n * a == 2 * (n * a);
    assert 255 * n * (n + 1) == 255 * (n * (n + 1));
  }

  lemma RawPush(a: nat, b: nat, data: seq<byte>, c: byte)
    ensures Raw(a, b, data + [c]) == (Raw(a, b, data).0 + c, Raw(a, b, data).1 + Raw(a, b, data).0 + c)
  {
    assert (data + [c])[..|data|] == data;
  }

  /** Both 16-bit halves go through the bytes; reduced at the end of each run. */
  ghost predicate Reached(adler: ulg, data: seq<byte>, s1: nat, s2: nat)
  {
    && (s1 % LZO_BASE, s2 % LZO_BASE) == Sums(adler % 0x1_0000 % LZO_BASE, adler / 0x1_0000 % LZO_BASE, data)
    && if data == [] then s1 == adler % 0x1_0000 && s2 == adler / 0x1_0000 else s1 < LZO_BASE && s2 < LZO_BASE
  }

  lemma RunReached(adler: ulg, data: seq<byte>, run: seq<byte>, s1: nat, s2: nat)
    requires Reached(adler, data, s1, s2) && run != []
    ensures Reached(adler, data + run, Raw(s1, s2, run).0 % LZO_BASE, Raw(s1, s2, run).1 % LZO_BASE)
  {
    hide Raw, Sums;
    RawReduced(s1, s2, run);
    SumsConcat(adler % 0x1_0000 % LZO_BASE, adler / 0x1_0000 % LZO_BASE, data, run);
  }

  /** One run of at most LZO_NMAX bytes. */
  method AddRun(a: ulg, b: ulg, buf: array<byte>, at: nat, k: nat) returns (s1: ulg, s2: ulg)
    requires a < 0x1_0000 && b < 0x1_0000 && 1 <= k <= LZO_NMAX && at + k <= buf.Length
    ensures (s1, s2) == Raw(a, b, buf[at..at + k])
  {
    hide Raw;
    s1, s2 := a, b;
    RawStart(a, b);
    assert buf[at..at] == [];
    for i := 0 to k
      invariant (s1, s2) == Raw(a, b, buf[at..at + i])
    {
      RunFits(a, b, buf[at..at + i + 1]);
      assert buf[at..at + i + 1] == buf[at..at + i] + [buf[at + i]];
      RawPush(a, b, buf[at..at + i], buf[at + i]);
      s1 := s1 + buf[at + i];
      s2 := s2 + s1;
    }
  }

  /** lzo_adler32: the sums are kept in 32 bits and reduced once per run. No input overflows them. */
  method LzoAdler32(adler: ulg, buf: array?<byte>, len0: nat) returns (r: ulg)
    requires buf != null ==> len0 <= buf.Length
    ensures r == if buf == null then 1 else if len0 == 0 then adler else Adler32(adler, buf[..len0])
  {
    hide Raw, Reached;
    if buf == null { return 1; }
    var s1: ulg, s2: ulg := adler % 0x1_0000, adler / 0x1_0000;
    var len: nat, at: nat := len0, 0;
    StartReached(adler);
    assert buf[..0] == [];
    while len > 0
      invariant at + len == len0 && Reached(adler, buf[..at], s1, s2)
    {
      var k: nat := if len < LZO_NMAX then len else LZO_NMAX;
      len := len - k;
      ReachedBounds(adler, buf[..at], s1, s2);
      RunReached(adler, buf[..at], buf[at..at + k], s1, s2);
      assert buf[..at + k] == buf[..at] + buf[at..at + k];
      s1, s2 := AddRun(s1, s2, buf, at, k);
      s1 := s1 % LZO_BASE;
      s2 := s2 % LZO_BASE;
      at := at + k;
    }
    ReachedBounds(adler, buf[..len0], s1, s2);
    r := s2 * 0x1_0000 + s1;
  }

  lemma StartReached(adler: ulg)
    ensures Reached(adler, [], adler % 0x1_0000, adler / 0x1_0000)
  {
  }

  lemma ReachedBounds(adler: ulg, data: seq<byte>, s1: nat, s2: nat)
    requires Reached(adler, data, s1, s2)
    ensures s1 < 0x1_0000 && s2 < 0x1_0000
    ensures s2 * 0x1_0000 + s1 == if data == [] then adler else Adler32(adler, data)
  {
    hide Sums;
  }

  lemma RawStart(a: nat, b: nat)
    ensures Raw(a, b, []) == (a, b)
  {
  }
}
