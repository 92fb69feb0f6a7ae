/** The sliding window: reading input into it, moving it, the hash table, and the search for matches. */
module Window {
  import opened Bits
  import opened Crc
  import opened Hash
  import opened Chains
  import opened Tokens

  /** The input file. A read gives some of the rest, or the end of file, or fails. */
  class Source {
    const data: seq<byte>
    var pos: nat
    var failed: bool

    ghost predicate Valid()
      reads this
    {
      pos <= |data|
    }

    constructor (data: seq<byte>)
      ensures Valid() && this.data == data && pos == 0 && !failed
    {
      this.data := data;
      pos, failed := 0, false;
    }

    /** Reads at most `size` bytes; how many is up to the system. Returns 0 at the end, -1 on failure. */
    method Read(buf: array<byte>, start: nat, size: nat) returns (n: int)
      requires Valid() && 1 <= size && start + size <= buf.Length
      modifies this, buf
      ensures Valid() && -1 <= n <= size && failed == (old(failed) || n == -1)
      ensures pos == old(pos) + (if n > 0 then n else 0)
      ensures n == 0 ==> pos == |data|
      ensures buf[..start] == old(buf[..start])
      ensures n <= 0 ==> buf[..] == old(buf[..])
      ensures n > 0 ==> buf[start..start + n] == data[old(pos)..pos]
    {
      var error: bool := *;
      if error {
        failed := true;
        return -1;
      }
      if pos == |data| { return 0; }
      var k :| 1 <= k <= size && pos + k <= |data|;
      n := k;
      for i := 0 to k
        invariant pos == old(pos) && failed == old(failed)
        invariant buf[..start] == old(buf[..start]) && buf[start..start + i] == data[pos..pos + i]
      {
        buf[start + i] := data[pos + i];
      }
      pos := pos + k;
    }
  }

  /** The value of an unsigned variable after x was assigned to it. */
  function U32(x: int): ulg
  {
    x % 0x1_0000_0000
  }

  lemma U32Difference(a: int, b: int)
    ensures U32(a - U32(b)) == U32(a - b)
  {
    var q := b / 0x1_0000_0000;
    assert a - U32(b) == a - b + q * 0x1_0000_0000;
    U32Period(a - b, q);
  }

  lemma {:induction false} U32Period(x: int, q: int)
    ensures U32(x + q * 0x1_0000_0000) == U32(x)
    decreases if q < 0 then -q else q
  {
    if q > 0 {
      U32Period(x, q - 1);
      assert x + q * 0x1_0000_0000 == x + (q - 1) * 0x1_0000_0000 + 0x1_0000_0000;
    } else if q < 0 {
      U32Period(x, q + 1);
      assert x + q * 0x1_0000_0000 == x + (q + 1) * 0x1_0000_0000 - 0x1_0000_0000;
    }
  }

  /** How many positions a search tries. */
  function ChainLength(prevLength: nat): nat
  {
    if prevLength >= GOOD_MATCH then MAX_CHAIN_LENGTH / 4 else MAX_CHAIN_LENGTH
  }

  /** Positions up to this one are too far back from s. */
  function Limit(s: nat): nat
  {
    if s > MAX_DIST then s - MAX_DIST else 0
  }

  /** What deflate makes of the length whole that longest_match returns for a match at start. */
  function Clamped(whole: nat, s: nat, lookahead: nat, start: ulg): nat
  {
    var len := if whole > lookahead then lookahead else whole;
    if len == MIN_MATCH && U32(s - start) > TOO_FAR then len - 1 else len
  }

  /** What a search at s finds behind a match of prevLength bytes. Nothing, if that is long enough. Otherwise no string
      that is close enough and among the latest with its hash has a match longer than whole, unless that is NICE_MATCH;
      and len is what becomes of whole, or nothing if no string is close enough. */
  ghost predicate LookedFor(input: seq<byte>, base: nat, s: nat, lookahead: nat, prevLength: nat, start: ulg,
                            len: nat, whole: nat)
  {
    if prevLength >= MAX_LAZY_MATCH then len == MIN_MATCH - 1
    else
      && whole >= prevLength
      && (whole >= NICE_MATCH || Thorough(input, base, s, Limit(s), ChainLength(prevLength), whole))
      && (len == Clamped(whole, s, lookahead, start) || (len == MIN_MATCH - 1 && whole == prevLength))
  }

  class SlidingWindow {
    const source: Source
    const window: array<byte>
    const prev: array<ush>
    const head: array<ush>
    const crcTable: array<ulg>
    var crc: ulg
    var blockStart: int
    var insH: nat
    var prevLength: nat
    var strstart: nat
    var matchStart: ulg
    var lookahead: nat
    var isize: ulg
    var eofile: bool
    /** Everything read so far, the offset in it of the start of the window, and where it ends in the window. */
    ghost var input: seq<byte>
    ghost var base: nat
    ghost var end: nat

    ghost predicate Allocated()
    {
      && window.Length == WINDOW_SIZE && prev.Length == WSIZE && head.Length == HASH_SIZE && prev != head
      && crcTable.Length == 256
    }

    /** What was read is what the checksum and the size are about, and the end of it is in the window. */
    ghost predicate Content()
      reads this`crc, this`isize, this`eofile, this`input, this`base, this`end, source, window, crcTable
    {
      && Allocated() && source.Valid() && input == source.data[..source.pos]
      && (eofile ==> source.failed || source.pos == |source.data|)
      && (forall i: ulg :: i < 256 ==> crcTable[i] == Shift8(i))
      && crc == Update(0xffff_ffff, input) && isize == |input| % 0x1_0000_0000
      && end <= WINDOW_SIZE && |input| == base + end && window[..end] == input[base..]
    }

    /** The bytes ahead are those up to the end. Not so while the strings in a match are inserted. */
    ghost predicate Level()
      reads this`strstart, this`lookahead, this`end
    {
      strstart + lookahead == end
    }

    /** The positions before ins are in the hash table. */
    ghost predicate Inserted(ins: nat)
      reads this`input, this`base, prev, head
    {
      Allocated() && Chained(prev[..], input, base, ins) && Headed(head[..], input, base, ins)
    }

    /** The running hash is ready for the string at ins. */
    ghost predicate HashReady(ins: nat)
      reads this`input, this`base, this`insH
    {
      base + ins + 1 < |input| ==> Rolled(insH, input[base + ins], input[base + ins + 1])
    }

    ghost predicate Valid()
      reads this, source, window, crcTable, prev, head
    {
      Content() && Level() && Inserted(strstart) && HashReady(strstart)
    }

    /** k positions from strstart on are in the hash table already, and the running hash is ready for the next. */
    ghost predicate Ready(k: nat)
      reads this`input, this`base, this`end, this`insH, this`strstart, this`lookahead, prev, head
    {
      Level() && Inserted(strstart + k) && HashReady(strstart + k)
    }

    constructor (source: Source, crcTable: array<ulg>)
      requires source.Valid() && source.pos == 0 && crcTable.Length == 256
      requires forall i: ulg :: i < 256 ==> crcTable[i] == Shift8(i)
      ensures Content() && Level() && fresh(window) && fresh(prev) && fresh(head) && this.source == source
      ensures this.crcTable == crcTable
      ensures base == 0 && strstart == 0 && lookahead == 0 && !eofile && blockStart == 0 && insH == 0 && input == []
    {
      this.source, this.crcTable := source, crcTable;
      window := new byte[WINDOW_SIZE](_ => 0);
      prev, head := new ush[WSIZE](_ => 0), new ush[HASH_SIZE](_ => 0);
      crc, blockStart, insH, prevLength, strstart, matchStart, lookahead, isize := 0xffff_ffff, 0, 0, 0, 0, 0, 0, 0;
      eofile := false;
      input, base, end := [], 0, 0;
    }

    /** A byte of the window; beyond its end, any byte. */
    method Peek(i: nat) returns (b: byte)
      ensures i < window.Length ==> b == window[i]
    {
      if i < window.Length { return window[i]; }
      b := *;
    }

    /** Reads behind the bytes that are there, and updates the checksum and the size. */
    method ReadMore(size: nat)
      requires Content() && Level() && !eofile && 1 <= size && strstart + lookahead + size <= WINDOW_SIZE
      modifies this`crc, this`isize, this`lookahead, this`eofile, this`input, this`end, source, window
      ensures Content() && Level() && old(input) <= input && lookahead >= old(lookahead)
      ensures if eofile then lookahead == old(lookahead) && input == old(input) else lookahead > old(lookahead)
    {
      hide Update, Shift8;
      ghost var w, at := window[..], strstart + lookahead;
      var n := source.Read(window, strstart + lookahead, size);
      if n <= 0 {
        eofile := true;
        return;
      }
      crc := BlockEndian0(crc, window, strstart + lookahead, n, crcTable);
      isize := (isize + n) % 0x1_0000_0000;
      ghost var more := source.data[old(source.pos)..source.pos];
      UpdateConcat(0xffff_ffff, input, more);
      Appended(input, more, source.data, old(source.pos), base);
      SizeGrown(|input|, n);
      WindowGrown(w, window[..], at, n, input[base..], more);
      input := input + more;
      end := end + n;
      lookahead := lookahead + n;
    }

    /** Moves the upper half of the window to the lower one. */
    method MoveWindow()
      requires Valid() && strstart >= WSIZE
      modifies this`matchStart, this`strstart, this`blockStart, this`base, this`end, window, head, prev
      ensures Valid()
      ensures strstart == old(strstart) - WSIZE && base == old(base) + WSIZE && blockStart == old(blockStart) - WSIZE
      ensures matchStart == U32(old(matchStart) - WSIZE)
    {
      hide Content, Chained, Headed, Rolled, U32;
      ghost var ins := strstart;
      MoveBytes();
      matchStart := U32(matchStart - WSIZE);
      strstart := strstart - WSIZE;
      blockStart := blockStart - WSIZE;
      SlideTables(ins);
    }

    /** Copies the upper half of the window to the lower one. */
    method MoveBytes()
      requires Content() && end >= WSIZE
      modifies this`base, this`end, window
      ensures Content() && base == old(base) + WSIZE && end == old(end) - WSIZE
    {
      hide Update, Shift8;
      ghost var w := window[..];
      CopyDown(window);
      Moved(w, window[..], end, input, base);
      base, end := base + WSIZE, end - WSIZE;
    }

    /** Slides both tables. */
    method SlideTables(ghost ins: nat)
      requires Allocated() && ins >= WSIZE && base >= WSIZE
      requires Chained(prev[..], input, base - WSIZE, ins) && Headed(head[..], input, base - WSIZE, ins)
      modifies head, prev
      ensures Inserted(ins - WSIZE)
    {
      hide Chained, Headed;
      SlideTable(head);
      SlideTable(prev);
      Slide(old(prev[..]), old(head[..]), prev[..], head[..], input, base - WSIZE, ins);
    }

    /** Moves the window if there is no room behind the lookahead, and returns how much room there is. */
    method MakeRoom() returns (more: ulg)
      requires Content() && Level() && Inserted(strstart) && lookahead < MIN_LOOKAHEAD
      requires lookahead >= 2 || strstart == 0
      requires strstart == 0 || HashReady(strstart)
      modifies this`matchStart, this`strstart, this`blockStart, this`base, this`end, window, head, prev
      ensures Content() && Level() && Inserted(strstart)
      ensures more >= 2 && strstart + lookahead + more == WINDOW_SIZE
      ensures base + strstart == old(base + strstart) && base + blockStart == old(base + blockStart)
      ensures strstart == if old(strstart) >= WSIZE + MAX_DIST then old(strstart) - WSIZE else old(strstart)
      ensures matchStart == if strstart == old(strstart) then old(matchStart) else U32(old(matchStart) - WSIZE)
      ensures old(lookahead) >= 2 && old(HashReady(strstart)) ==> HashReady(strstart)
    {
      hide Content, Inserted, HashReady;
      ContentEnd();
      more := U32(WINDOW_SIZE - lookahead - strstart);
      if more == 0xffff_ffff {
        more := U32(more - 1);
      } else if strstart >= WSIZE + MAX_DIST {
        MoveWindow();
        more := U32(more + WSIZE);
      }
    }

    /** Inserts the string at strstart and moves on by one byte, as for a literal. */
    method PassString()
      requires Valid() && lookahead >= 1
      modifies this`insH, this`strstart, this`lookahead, prev, head
      ensures Valid() && strstart == old(strstart) + 1 && lookahead == old(lookahead) - 1
    {
      hide Content, Inserted, HashReady;
      var hashHead := InsertString();
      strstart, lookahead := strstart + 1, lookahead - 1;
    }

    lemma LevelEnd()
      requires Level()
      ensures strstart + lookahead == end
    {
    }

    lemma ContentEnd()
      requires Content()
      ensures end <= WINDOW_SIZE && |input| == base + end <= |source.data|
      ensures eofile && !source.failed ==> |input| == |source.data|
    {
      hide Update, Shift8;
    }

    /** The string at s is far enough from the end of the window to be compared with any other. */
    ghost predicate Inside(s: nat)
    {
      s <= WINDOW_SIZE - MIN_LOOKAHEAD
    }

    /** All strings up to the end of what has been read are. */
    ghost predicate AllInside()
      reads this`strstart, this`end
    {
      forall s: nat | strstart <= s < end :: Inside(s)
    }

    /** While enough is ahead the next string is inside. */
    lemma EnoughAhead()
      requires Content() && Level() && lookahead >= MIN_LOOKAHEAD
      ensures Inside(strstart)
    {
      hide Update, Shift8;
    }

    /** Refills the window when the lookahead becomes insufficient. When that finds the end of the input, all strings
        that are left are inside if and only if the window was moved or what it holds does not reach too far. */
    method FillWindow()
      requires Content() && Level() && Inserted(strstart) && lookahead < MIN_LOOKAHEAD && !eofile
      requires lookahead >= 2 || strstart == 0
      requires strstart == 0 || HashReady(strstart)
      modifies this, source, window, prev, head
      ensures Content() && Level() && Inserted(strstart) && (eofile || lookahead > old(lookahead))
      ensures base + strstart == old(base + strstart) && base + blockStart == old(base + blockStart)
      ensures strstart == if old(strstart) >= WSIZE + MAX_DIST then old(strstart) - WSIZE else old(strstart)
      ensures matchStart == if strstart == old(strstart) then old(matchStart) else U32(old(matchStart) - WSIZE)
      ensures old(input) <= input && lookahead >= old(lookahead) && prevLength == old(prevLength) && insH == old(insH)
      ensures old(lookahead) >= 2 && old(HashReady(strstart)) ==> HashReady(strstart)
      ensures eofile ==> (AllInside() <==> old(strstart) >= WSIZE + MAX_DIST
                                           || old(strstart + lookahead) <= WINDOW_SIZE - MIN_LOOKAHEAD + 1)
    {
      hide Update, Shift8, Chained, Headed, Rolled;
      var more := MakeRoom();
      ghost var i0 := input;
      ReadMore(more);
      MoreInput(prev[..], head[..], i0, input[|i0|..], base, strstart);
      assert i0 + input[|i0|..] == input;
      if eofile { LastInside(); }
    }

    lemma LastInside()
      requires Level()
      ensures AllInside() <==> lookahead == 0 || Inside(end - 1)
    {
    }

    /** Keeps enough lookahead, except at the end of the input. */
    method FillWindowIfNeeded()
      requires Content() && Level() && Inserted(strstart) && (eofile || lookahead >= 2 || strstart == 0)
      requires strstart == 0 || HashReady(strstart)
      modifies this, source, window, prev, head
      ensures Content() && Level() && Inserted(strstart) && (eofile || lookahead >= MIN_LOOKAHEAD)
      ensures base + strstart == old(base + strstart) && base + blockStart == old(base + blockStart)
      ensures strstart == old(strstart) || strstart >= MAX_DIST
      ensures old(eofile) || old(strstart) < WSIZE + MAX_DIST ==> strstart == old(strstart)
      ensures U32(strstart - matchStart) == old(U32(strstart - matchStart))
      ensures old(input) <= input && lookahead >= old(lookahead) && prevLength == old(prevLength) && insH == old(insH)
      ensures old(strstart > 0) ==> strstart > 0 && HashReady(strstart)
      ensures old(eofile) ==> input == old(input)
    {
      hide Update, Shift8, Chained, Headed, Rolled, U32, Content;
      while lookahead < MIN_LOOKAHEAD && !eofile
        invariant Content() && Level() && Inserted(strstart) && (eofile || lookahead >= 2 || strstart == 0)
        invariant base + strstart == old(base + strstart) && base + blockStart == old(base + blockStart)
        invariant strstart == old(strstart) || strstart >= MAX_DIST
        invariant old(eofile) || old(strstart) < WSIZE + MAX_DIST ==> strstart == old(strstart)
        invariant U32(strstart - matchStart) == old(U32(strstart - matchStart))
        invariant old(input) <= input && lookahead >= old(lookahead) && prevLength == old(prevLength)
        invariant insH == old(insH)
        invariant strstart == 0 || HashReady(strstart)
        invariant old(strstart > 0) ==> strstart > 0
        invariant old(eofile) ==> input == old(input) && eofile
        decreases !eofile, MIN_LOOKAHEAD - lookahead
      {
        U32Slide(strstart, matchStart);
        FillWindow();
      }
    }

    /** Takes the third byte of the string at strstart into the running hash. */
    method RollHash()
      requires Content() && HashReady(strstart)
      modifies this`insH
      ensures insH < HASH_SIZE && HashReady(strstart + 1)
      ensures Real(input, base + strstart) ==> insH == HashAt(input, base + strstart)
    {
      hide Update, Shift8, Rolled, UpdateHash, Hash3;
      var c := Peek(strstart + MIN_MATCH - 1);
      if base + strstart + 2 < |input| {
        WindowAt(window[..], end, input, base, strstart + 2);
        RolledUpdate(insH, input[base + strstart], input[base + strstart + 1], c);
        RolledNext(insH, input[base + strstart], input[base + strstart + 1], c);
      }
      insH := UpdateHash(insH, c);
    }

    /** INSERT_STRING at strstart: returns the previous head of the chain of its hash. */
    method InsertString() returns (matchHead: ush)
      requires Content() && Inserted(strstart) && HashReady(strstart) && strstart < end
      modifies this`insH, prev, head
      ensures Content() && Inserted(strstart + 1) && HashReady(strstart + 1)
      ensures Prior(input, base, strstart, matchHead)
    {
      hide Update, Shift8, Chained, Headed, Rolled, HashAt, Prior;
      RollHash();
      ghost var p, h, s: ush := prev[..], head[..], strstart;
      Insert(p, h, input, base, strstart, insH);
      matchHead := head[insH];
      prev[strstart % WSIZE] := matchHead;
      head[insH] := strstart;
      assert prev[..] == p[strstart % WSIZE := matchHead] && head[..] == h[insH := s];
    }

    /** Whether the i-th bytes from cur and from strstart are the same, as far as the window shows. */
    method EqualAt(cur: nat, i: nat) returns (same: bool)
      requires Content() && cur < strstart
      ensures same ==> SameByte(input, base + cur, base + strstart, i)
      ensures !same && base + strstart + i < |input| ==> !SameByte(input, base + cur, base + strstart, i)
    {
      hide Update, Shift8;
      var a := Peek(strstart + i);
      var b := Peek(cur + i);
      same := a == b;
      if base + strstart + i < |input| {
        WindowAt(window[..], end, input, base, strstart + i);
        WindowAt(window[..], end, input, base, cur + i);
      }
    }

    /** Two strings do not agree in len + 1 bytes of the input. */
    ghost predicate Stopped(cur: nat, len: nat)
      requires cur < strstart
      reads this`strstart, this`input, this`base
    {
      base + strstart + len >= |input| || !SameByte(input, base + cur, base + strstart, len)
    }

    /** The length of the match at cur, whose first three bytes are known to be equal: as far as the strings agree. The
        end is checked only after every eighth comparison. */
    method MatchLength(cur: nat) returns (len: nat)
      requires Content() && cur < strstart && Same(input, base + cur, base + strstart, 3)
      ensures MIN_MATCH <= len <= MAX_MATCH && Same(input, base + cur, base + strstart, len)
      ensures len == MAX_MATCH || Stopped(cur, len)
    {
      hide Update, Shift8, Same, SameByte;
      len := 2;
      var same := true;
      while same && len < MAX_MATCH
        invariant 2 <= len <= MAX_MATCH && (same ==> (len - 2) % 8 == 0)
        invariant Same(input, base + cur, base + strstart, if same then len + 1 else len)
        invariant !same ==> MIN_MATCH <= len <= MAX_MATCH && Stopped(cur, len)
        decreases same, MAX_MATCH - len
      {
        var k := 0;
        ghost var from := len;
        while k < 8 && same
          invariant 0 <= k <= 8 && 2 <= len && (same ==> len == from + k)
          invariant Same(input, base + cur, base + strstart, if same then len + 1 else len)
          invariant !same ==> MIN_MATCH <= len <= MAX_MATCH && Stopped(cur, len)
          decreases same, 8 - k
        {
          len := len + 1;
          same := EqualAt(cur, len);
          if same { SamePush(input, base + cur, base + strstart, len); }
          k := k + 1;
        }
      }
      if same { SameShorter(input, base + cur, base + strstart, len); }
    }

    /** The two bytes at the end of the best length so far. */
    ghost predicate EndBytes(bestLen: nat, scanEnd1: byte, scanEnd: byte)
      reads this`strstart, window
    {
      && 1 <= bestLen
      && (strstart + bestLen - 1 < window.Length ==> scanEnd1 == window[strstart + bestLen - 1])
      && (strstart + bestLen < window.Length ==> scanEnd == window[strstart + bestLen])
    }

    /** Whether the string at cur may be a longer match: its first two bytes, and those at the end of
        the best length so far, are the same. */
    method Promising(cur: nat, bestLen: nat, scanEnd1: byte, scanEnd: byte) returns (r: bool)
      requires Content() && cur < strstart && EndBytes(bestLen, scanEnd1, scanEnd)
      requires cur != 0 && Link(input, base, strstart, cur)
      ensures r ==> Same(input, base + cur, base + strstart, 3)
      ensures !r ==> !Longer(input, base, strstart, cur, bestLen)
    {
      hide Update, Shift8, Link, Same, SameByte;
      r := false;
      var b := Peek(cur + bestLen);
      if b != scanEnd { DiffersAt(cur, bestLen, bestLen); return; }
      b := Peek(cur + bestLen - 1);
      if b != scanEnd1 { DiffersAt(cur, bestLen, bestLen - 1); return; }
      var first := EqualAt(cur, 0);
      if !first { StoppedAt(cur, bestLen, 0); return; }
      r := EqualAt(cur, 1);
      if r { SameThree(input, base, strstart, cur); } else { StoppedAt(cur, bestLen, 1); }
    }

    lemma StoppedAt(cur: nat, len: nat, i: nat)
      requires cur < strstart && i <= len
      requires base + strstart + i < |input| ==> !SameByte(input, base + cur, base + strstart, i)
      ensures !Longer(input, base, strstart, cur, len)
    {
    }

    /** A byte of the window that differs is one of the input that does, if it is one. */
    lemma DiffersAt(cur: nat, len: nat, i: nat)
      requires Content() && cur < strstart && i <= len
      requires strstart + i < window.Length ==> window[cur + i] != window[strstart + i]
      ensures !Longer(input, base, strstart, cur, len)
    {
      hide Update, Shift8, Longer;
      if base + strstart + i < |input| {
        WindowAt(window[..], end, input, base, strstart + i);
        WindowAt(window[..], end, input, base, cur + i);
      }
      StoppedAt(cur, len, i);
    }

    /** A match that may be used: not too far back, and as long as said. */
    ghost predicate Found(start: int, len: nat)
      reads this`strstart, this`input, this`base
    {
      0 <= start < strstart <= start + MAX_DIST && Same(input, base + start, base + strstart, len)
    }

    /** The n positions behind cur with the hash were tried, and none has a longer match. */
    ghost predicate TriedBehind(cur: nat, n: nat, bestLen: nat)
      reads this`strstart, this`input, this`base
    {
      && Tried(input, base, strstart, cur, bestLen)
      && (Real(input, base + strstart) ==> Rank(input, base, HashAt(input, base + strstart), cur + 1, strstart) == n)
    }

    /** The search is at cur: n positions behind it were tried, and none has a longer match. */
    ghost predicate SearchAt(cur: nat, n: nat, bestLen: nat)
      reads this`strstart, this`input, this`base, this`matchStart, this`prevLength
    {
      && Link(input, base, strstart, cur) && (bestLen > prevLength ==> Found(matchStart, bestLen))
      && prevLength <= bestLen <= MAX_MATCH && TriedBehind(cur, n, bestLen)
    }

    /** Compares the string at curMatch with that at strstart. */
    method TryMatch(curMatch: ush, bestLen0: nat, scanEnd10: byte, scanEnd0: byte)
      returns (bestLen: nat, scanEnd1: byte, scanEnd: byte)
      requires Content() && EndBytes(bestLen0, scanEnd10, scanEnd0) && bestLen0 < NICE_MATCH
      requires 1 <= curMatch < strstart <= curMatch + MAX_DIST && Link(input, base, strstart, curMatch)
      requires bestLen0 > prevLength ==> Found(matchStart, bestLen0)
      modifies this`matchStart
      ensures bestLen0 <= bestLen <= MAX_MATCH && EndBytes(bestLen, scanEnd1, scanEnd)
      ensures bestLen > prevLength ==> bestLen0 > prevLength || Found(matchStart, bestLen)
      ensures bestLen > prevLength && prevLength <= bestLen0 ==> Found(matchStart, bestLen)
      ensures bestLen >= NICE_MATCH || !Longer(input, base, strstart, curMatch, bestLen)
    {
      hide Link, Same, Content, Longer;
      bestLen, scanEnd1, scanEnd := bestLen0, scanEnd10, scanEnd0;
      var promising := Promising(curMatch, bestLen, scanEnd1, scanEnd);
      if !promising { return; }
      var len := MatchLength(curMatch);
      if len > bestLen {
        matchStart := curMatch;
        bestLen := len;
        scanEnd1 := Peek(strstart + bestLen - 1);
        scanEnd := Peek(strstart + bestLen);
      }
      if bestLen < NICE_MATCH { StoppedAt(curMatch, bestLen, len); }
    }

    /** Sets matchStart to the longest match for the string at strstart and returns its length. When there
        is none longer than prevLength, that is returned and matchStart means nothing. The search may stop at a match
        of NICE_MATCH bytes; if it has not, none of the ChainLength latest positions with the hash of the string that
        are less than MAX_DIST away has a longer one. */
    method LongestMatch(head0: ush) returns (bestLen: nat)
      requires Content() && Inserted(strstart + 1) && 1 <= prevLength < MAX_LAZY_MATCH
      requires head0 != 0 && Prior(input, base, strstart, head0) && strstart - head0 <= MAX_DIST
      modifies this`matchStart
      ensures prevLength <= bestLen <= MAX_MATCH
      ensures bestLen > prevLength ==> Found(matchStart, bestLen)
      ensures
        bestLen >= NICE_MATCH || Thorough(input, base, strstart, Limit(strstart), ChainLength(prevLength), bestLen)
    {
      hide Link, Same, Chained, Headed, Content, Prior, Thorough, SearchAt, Found, TriedBehind, Longer;
      var chainLength := MAX_CHAIN_LENGTH;
      bestLen := prevLength;
      var limit := if strstart > MAX_DIST then strstart - MAX_DIST else 0;
      var scanEnd1 := Peek(strstart + bestLen - 1);
      var scanEnd := Peek(strstart + bestLen);
      if prevLength >= GOOD_MATCH { chainLength := chainLength / 4; }
      var curMatch: ush := head0;
      SearchStart(curMatch);
      while true
        invariant 1 <= chainLength <= ChainLength(prevLength) && prevLength <= bestLen < NICE_MATCH
        invariant EndBytes(bestLen, scanEnd1, scanEnd)
        invariant curMatch != 0 && strstart - MAX_DIST <= curMatch < strstart
        invariant SearchAt(curMatch, ChainLength(prevLength) - chainLength, bestLen)
        decreases chainLength
      {
        ghost var bestLen0, start0 := bestLen, matchStart;
        SearchFacts(curMatch, ChainLength(prevLength) - chainLength, bestLen);
        bestLen, scanEnd1, scanEnd := TryMatch(curMatch, bestLen, scanEnd1, scanEnd);
        if bestLen >= NICE_MATCH { return; }
        ghost var n := ChainLength(prevLength) - chainLength;
        SearchStep(curMatch, prev[curMatch % WSIZE], n, bestLen0, bestLen);
        curMatch := prev[curMatch % WSIZE];
        if curMatch > limit { chainLength := chainLength - 1; }
        if curMatch <= limit || chainLength == 0 {
          SearchDone(curMatch, n + 1, bestLen);
          return;
        }
      }
    }

    lemma SearchStart(head0: ush)
      requires Prior(input, base, strstart, head0) && 1 <= head0 && 1 <= prevLength <= MAX_MATCH
      ensures SearchAt(head0, 0, prevLength) && head0 < strstart
    {
      hide Tried, HashAt, Link, Found;
      PriorLink(input, base, strstart, head0);
      StartTried(input, base, strstart, head0, prevLength);
    }

    lemma SearchFacts(cur: nat, n: nat, bestLen: nat)
      requires SearchAt(cur, n, bestLen)
      ensures Link(input, base, strstart, cur) && (bestLen > prevLength ==> Found(matchStart, bestLen))
      ensures TriedBehind(cur, n, bestLen)
    {
    }

    lemma SearchStep(cur: nat, next: nat, n: nat, bestLen0: nat, bestLen: nat)
      requires Content() && Inserted(strstart + 1) && 1 <= cur < strstart <= cur + MAX_DIST && next == prev[cur % WSIZE]
      requires Link(input, base, strstart, cur) && TriedBehind(cur, n, bestLen0) && bestLen0 <= bestLen <= MAX_MATCH
      requires !Longer(input, base, strstart, cur, bestLen)
      requires prevLength <= bestLen && (bestLen > prevLength ==> Found(matchStart, bestLen))
      ensures SearchAt(next, n + 1, bestLen) && next < strstart
    {
      hide Tried, HashAt, Link, Chained, Headed, Content, Longer, Last, Found;
      Follow(prev[..], input, base, strstart + 1, strstart, cur);
      TriedLonger(input, base, strstart, cur, bestLen0, bestLen);
      StepTried(input, base, strstart, cur, next, n, bestLen);
    }

    lemma SearchDone(next: nat, n: nat, bestLen: nat)
      requires SearchAt(next, n, bestLen) && (next <= Limit(strstart) || n >= ChainLength(prevLength))
      ensures bestLen > prevLength ==> Found(matchStart, bestLen)
      ensures Thorough(input, base, strstart, Limit(strstart), ChainLength(prevLength), bestLen)
    {
      hide Tried, HashAt, Link, Thorough, Found;
      TriedThorough(input, base, strstart, next, Limit(strstart), n, ChainLength(prevLength), bestLen);
    }

    /** The search of deflate for a match at strstart, given the head of its chain. A match longer than the
        one at the previous position is a match indeed, and does not go beyond the end of the input. If the previous one
        is shorter than MAX_LAZY_MATCH, what was found is as long as LongestMatch says, or no string with the hash is
        close enough. */
    method FindMatch(hashHead: ush) returns (matchLength: nat, ghost whole: nat)
      requires Content() && Level() && Inserted(strstart + 1) && Prior(input, base, strstart, hashHead)
      requires 1 <= prevLength && 1 <= lookahead
      modifies this`matchStart
      ensures 1 <= matchLength <= MAX_MATCH && (matchLength >= MIN_MATCH ==> matchLength <= lookahead)
      ensures matchLength >= MIN_MATCH && matchLength > prevLength ==> Found(matchStart, matchLength)
      ensures LookedFor(input, base, strstart, lookahead, prevLength, matchStart, matchLength, whole)
    {
      hide Link, Same, Chained, Headed, Content, Prior, Thorough, Found, Longer;
      matchLength := MIN_MATCH - 1;
      whole := prevLength;
      HeadClose(hashHead);
      if hashHead != 0 && prevLength < MAX_LAZY_MATCH && strstart - hashHead <= MAX_DIST {
        matchLength := LongestMatch(hashHead);
        whole := matchLength;
        if matchLength > lookahead { matchLength := lookahead; }
        if whole > prevLength { ClampFound(whole, matchLength); }
        if matchLength == MIN_MATCH && U32(strstart - matchStart) > TOO_FAR { matchLength := matchLength - 1; }
      }
    }

    /** Without a string with the hash that is close enough there is none to miss. */
    lemma HeadClose(hashHead: nat)
      requires Prior(input, base, strstart, hashHead) && 1 <= prevLength
      ensures hashHead < strstart || hashHead == 0
      ensures hashHead == 0 || strstart - hashHead > MAX_DIST ==>
                Thorough(input, base, strstart, Limit(strstart), ChainLength(prevLength), prevLength)
    {
      hide HashAt, Longer, Tried, Thorough, Last;
      if strstart >= 1 {
        PriorLink(input, base, strstart, hashHead);
        StartTried(input, base, strstart, hashHead, prevLength);
        if hashHead == 0 || strstart - hashHead > MAX_DIST {
          TriedThorough(input, base, strstart, hashHead, Limit(strstart), 0, ChainLength(prevLength), prevLength);
        }
      } else {
        NoneBefore(prevLength);
      }
    }

    lemma NoneBefore(len: nat)
      requires strstart == 0
      ensures Thorough(input, base, strstart, Limit(strstart), ChainLength(prevLength), len)
    {
      hide Longer, HashAt;
    }

    lemma ClampFound(whole: nat, len: nat)
      requires Found(matchStart, whole) && len <= whole
      ensures Found(matchStart, len)
    {
      SameClamped(input, base + matchStart, base + strstart, whole, len);
    }

    /** Inserts all strings up to the end of a match, of which prevLength are left. */
    method InsertMatch()
      requires Content() && Inserted(strstart + 1) && HashReady(strstart + 1)
      requires 1 <= prevLength && strstart + prevLength < end
      modifies this`insH, this`strstart, this`prevLength, prev, head
      ensures Content() && Inserted(strstart + 1) && HashReady(strstart + 1)
      ensures prevLength == 0 && strstart == old(strstart + prevLength)
    {
      hide Chained, Headed, Rolled, Update, Shift8, Prior;
      while true
        invariant Content() && Inserted(strstart + 1) && HashReady(strstart + 1)
        invariant 1 <= prevLength && strstart + prevLength == old(strstart + prevLength) < end
        decreases prevLength
      {
        strstart := strstart + 1;
        var hashHead := InsertString();
        prevLength := prevLength - 1;
        if prevLength == 0 { break; }
      }
    }

    /** Moves on to the end of a match that began at the position before, inserting its strings. */
    method SkipMatch()
      requires Content() && Level() && Inserted(strstart + 1) && HashReady(strstart + 1)
      requires MIN_MATCH <= prevLength <= lookahead + 1
      modifies this`lookahead, this`insH, this`strstart, this`prevLength, prev, head
      ensures Content() && Level() && Inserted(strstart) && HashReady(strstart)
      ensures strstart == old(strstart + prevLength) - 1 && lookahead == old(lookahead - prevLength) + 1
    {
      hide SlidingWindow.Content, SlidingWindow.Inserted, SlidingWindow.HashReady;
      lookahead := lookahead - (prevLength - 1);
      prevLength := prevLength - 2;
      InsertMatch();
      strstart := strstart + 1;
    }

    /** lm_init: the first read, and the start of the running hash. */
    method LmInit()
      requires Content() && Level() && base == 0 && strstart == 0 && lookahead == 0 && !eofile && insH == 0
      modifies this, source, window, prev, head
      ensures Valid() && (eofile || lookahead >= MIN_LOOKAHEAD)
      ensures base == 0 && strstart == 0 && blockStart == old(blockStart)
    {
      hide Update, Shift8, Chained, Headed, Rolled, UpdateHash;
      ClearHead();
      NothingInserted(prev[..], head[..], input);
      ReadMore(2 * WSIZE);
      MoreInput(prev[..], head[..], [], input, 0, 0);
      assert [] + input == input;
      if eofile { return; }
      FillWindowIfNeeded();
      RollTwice();
    }

    /** The hash table is empty. */
    method ClearHead()
      requires Allocated()
      modifies head
      ensures forall h | 0 <= h < HASH_SIZE :: head[h] == 0
    {
      for j := 0 to HASH_SIZE
        invariant forall h | 0 <= h < j :: head[h] == 0
      {
        head[j] := 0;
      }
    }

    /** Takes the first two bytes of the window into the running hash. */
    method RollTwice()
      requires Content() && base == 0 && insH == 0
      modifies this`insH
      ensures HashReady(0)
    {
      hide Update, Shift8, Rolled, UpdateHash;
      for j := 0 to MIN_MATCH - 1
        invariant insH == if j == 0 then 0 else if j == 1 then UpdateHash(0, window[0])
                  else UpdateHash(UpdateHash(0, window[0]), window[1])
      {
        insH := UpdateHash(insH, window[j]);
      }
      if 1 < |input| {
        WindowAt(window[..], end, input, base, 0);
        WindowAt(window[..], end, input, base, 1);
        RolledStart(input[0], input[1]);
      }
    }
  }

  lemma SameClamped(input: seq<byte>, o: nat, p: nat, len: nat, shorter: nat)
    requires o <= p && Same(input, o, p, len) && shorter <= len
    ensures Same(input, o, p, shorter)
  {
  }

  const MAX_CHAIN_LENGTH := 128
  const MAX_LAZY_MATCH := 16
  const GOOD_MATCH := 8
  const NICE_MATCH := 128
  const TOO_FAR := 4096

  /** A byte at an absolute offset, as the window shows it. */
  lemma WindowAt(w: seq<byte>, end: nat, input: seq<byte>, base: nat, i: nat)
    requires end <= |w| && base + end == |input| && w[..end] == input[base..] && i < end
    ensures w[i] == input[base + i]
  {
    assert w[..end][i] == input[base..][i];
  }

  lemma U32Slide(s: int, m: int)
    ensures U32(s - WSIZE - U32(m - WSIZE)) == U32(s - m)
  {
    U32Difference(s - WSIZE, m - WSIZE);
  }

  lemma Moved(w: seq<byte>, w': seq<byte>, end: nat, input: seq<byte>, base: nat)
    requires |w| == |w'| == WINDOW_SIZE && WSIZE <= end <= WINDOW_SIZE && base + end == |input|
    requires w[..end] == input[base..] && forall k | 0 <= k < WSIZE :: w'[k] == w[k + WSIZE]
    ensures w'[..end - WSIZE] == input[base + WSIZE..]
  {
    forall k | 0 <= k < end - WSIZE
      ensures w'[k] == input[base + WSIZE..][k]
    {
      assert w[..end][k + WSIZE] == input[base..][k + WSIZE];
    }
  }

  /** memcpy of the upper half to the lower. */
  method CopyDown(a: array<byte>)
    requires a.Length == WINDOW_SIZE
    modifies a
    ensures forall k | 0 <= k < WSIZE :: a[k] == old(a[k + WSIZE])
  {
    for i := 0 to WSIZE
      invariant forall k | 0 <= k < i :: a[k] == old(a[k + WSIZE])
      invariant forall k | i <= k < WINDOW_SIZE :: a[k] == old(a[k])
    {
      a[i] := a[WSIZE + i];
    }
  }

  /** Moves the entries of a table down by WSIZE. */
  method SlideTable(a: array<ush>)
    modifies a
    ensures Slid(old(a[..]), a[..])
  {
    for n := 0 to a.Length
      invariant forall k | 0 <= k < n :: a[k] == SlidIndex(old(a[k]))
      invariant forall k | n <= k < a.Length :: a[k] == old(a[k])
    {
      var m := a[n];
      a[n] := if m >= WSIZE then m - WSIZE else 0;
    }
  }

  lemma Appended(input: seq<byte>, more: seq<byte>, data: seq<byte>, pos: nat, base: nat)
    requires pos + |more| <= |data| && input == data[..pos] && more == data[pos..pos + |more|] && base <= |input|
    ensures input + more == data[..pos + |more|] && (input + more)[base..] == input[base..] + more
  {
  }

  lemma SizeGrown(size: nat, n: nat)
    ensures (size % 0x1_0000_0000 + n) % 0x1_0000_0000 == (size + n) % 0x1_0000_0000
  {
  }

  lemma WindowGrown(w: seq<byte>, w': seq<byte>, at: nat, n: nat, front: seq<byte>, more: seq<byte>)
    requires at + n <= |w| == |w'| && w'[..at] == w[..at] == front && w'[at..at + n] == more
    ensures w'[..at + n] == front + more
  {
    assert w'[..at + n] == w'[..at] + w'[at..at + n];
  }

  const SHORT := 65400
  const LATE := 65300

  /** Between two bytes. */
  ghost predicate AtByte(win: SlidingWindow)
    reads win, win.source, win.window, win.crcTable, win.prev, win.head
  {
    win.source.failed || (win.Valid() && (win.eofile || win.lookahead >= MIN_LOOKAHEAD))
  }

  /** A byte that becomes a literal: its string is inserted, and the window refilled behind it. */
  method PassByte(win: SlidingWindow)
    requires AtByte(win) && !win.source.failed && |win.source.data| == SHORT && win.base == 0 && win.strstart < LATE
    modifies win, win.source, win.window, win.prev, win.head
    ensures AtByte(win) && win.base == 0 && win.strstart == old(win.strstart) + 1
  {
    hide SlidingWindow.Content, SlidingWindow.Inserted, SlidingWindow.HashReady, SlidingWindow.Level;
    win.ContentEnd();
    win.LevelEnd();
    win.PassString();
    win.FillWindowIfNeeded();
  }

  /** An input of 65400 bytes ends in the window without its having been moved, however it is read: moving on byte by
      byte, as for literals, the search reaches strings that are not inside, and reads beyond the window there. */
  method NotInside() returns (win: SlidingWindow)
    ensures fresh(win) && |win.source.data| == SHORT
    ensures win.source.failed || (win.Valid() && win.eofile && win.strstart < win.end && !win.Inside(win.strstart))
  {
    hide Update, Shift8, Chained, Headed, Rolled, AtByte, SlidingWindow.Valid;
    var table := FillTable();
    var source := new Source(seq(SHORT, _ => 0));
    win := new SlidingWindow(source, table);
    win.LmInit();
    AtFirst(win);
    while win.strstart < LATE && !source.failed
      invariant fresh(win) && fresh(win.window) && fresh(win.prev) && fresh(win.head) && fresh(source)
      invariant win.source == source && |source.data| == SHORT && win.base == 0 && win.strstart <= LATE && AtByte(win)
    {
      PassByte(win);
    }
    if !source.failed { AtLate(win); }
  }

  lemma AtFirst(win: SlidingWindow)
    requires win.Valid() && (win.eofile || win.lookahead >= MIN_LOOKAHEAD)
    ensures AtByte(win)
  {
  }

  lemma AtLate(win: SlidingWindow)
    requires AtByte(win) && !win.source.failed && |win.source.data| == SHORT && win.base == 0 && win.strstart == LATE
    ensures win.Valid() && win.eofile && win.strstart < win.end && !win.Inside(win.strstart)
  {
    hide Update, Shift8, Chained, Headed, Rolled;
  }
}
