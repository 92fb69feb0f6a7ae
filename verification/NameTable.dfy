/** dpkg's name table: strings become small numbers, equal strings equal numbers. */
module NameTable {
  import opened Bits
  import opened Divisors
  import opened Probing

  /** A character other than the terminating zero; characters are unsigned. */
  type CChar = c: int | 0 < c < 256 witness 1

  type CString = seq<CChar>

  /** A string constant. */
  function Chars(s: string): (c: CString)
    requires forall i | 0 <= i < |s| :: 0 < s[i] as int < 256
    ensures |c| == |s|
  {
    seq(|s|, i requires 0 <= i < |s| => s[i] as int)
  }

  // ---------- hashing ----------

  /** What the i-th character adds. */
  function Mixed(c: nat, last: nat, i: nat): nat
  {
    Shl(c + last, c * i % 24)
  }

  /** The hash of the first n characters, in 64 bits. */
  function HashNum(key: CString, n: nat): nat
    requires n <= |key|
  {
    if n == 0 then 0
    else if n == 1 then key[0]
    else (HashNum(key, n - 1) + Mixed(key[n - 1], key[n - 2], n - 1)) % 0x1_0000_0000_0000_0000
  }

  function Start(key: CString, prime: nat): (a: nat)
    requires prime > 1
    ensures a < prime
  {
    HashNum(key, |key|) % 0x1_0000_0000 % prime
  }

  function Decrement(key: CString, prime: nat): (d: nat)
    requires prime > 1
    ensures 1 <= d < prime
  {
    1 + HashNum(key, |key|) % (prime - 1)
  }

  /** make_hash: whatever the key, a slot to start at and a step down that is neither 0 nor the whole table. */
  method MakeHash(key: CString, prime: nat) returns (start: nat, decrement: nat)
    requires prime > 1
    ensures start == Start(key, prime) < prime && 1 <= decrement == Decrement(key, prime) < prime
  {
    hide Mixed, HashNum;
    var hashNum: nat, i := 0, 1;
    if key != [] { hashNum := key[0]; }
    HashFirst(key);
    while i < |key|
      invariant key != [] ==> 1 <= i <= |key| && hashNum == HashNum(key, i)
      invariant key == [] ==> hashNum == HashNum(key, 0)
    {
      HashNext(key, i);
      hashNum := (hashNum + Mixed(key[i], key[i - 1], i)) % 0x1_0000_0000_0000_0000;
      i := i + 1;
    }
    start := hashNum % 0x1_0000_0000 % prime;
    decrement := 1 + hashNum % (prime - 1);
  }

  lemma HashFirst(key: CString)
    ensures HashNum(key, 0) == 0 && (key != [] ==> HashNum(key, 1) == key[0])
  {
  }

  lemma HashNext(key: CString, i: nat)
    requires 1 <= i < |key|
    ensures HashNum(key, i + 1) == (HashNum(key, i) + Mixed(key[i], key[i - 1], i)) % 0x1_0000_0000_0000_0000
  {
  }

  // ---------- tables ----------

  datatype Slot = Free | Name(text: CString)

  type Table = t: seq<Slot> | |t| == NAME_HASH_PRIME witness seq(NAME_HASH_PRIME, _ => Free)

  /** A search for a key stops at a free slot or at the key. */
  function StopsFor(t: Table, key: CString): (s: Stops)
    ensures |s| == NAME_HASH_PRIME && forall i | 0 <= i < |t| :: s[i] == (t[i] == Free || t[i] == Name(key))
  {
    seq(NAME_HASH_PRIME, i requires 0 <= i < |t| => t[i] == Free || t[i] == Name(key))
  }

  /** The key's search of the table ends at slot a with the k-th probe. */
  ghost predicate Leads(t: Table, key: CString, a: nat, k: nat)
  {
    EndsAt(StopsFor(t, key), Start(key, NAME_HASH_PRIME), Decrement(key, NAME_HASH_PRIME), a, k)
  }

  /** Every name stored is where the search for it ends. */
  ghost predicate Sound(t: Table)
  {
    forall a | 0 <= a < |t| && t[a] != Free :: exists k: nat :: Leads(t, t[a].text, a, k)
  }

  /** Some slot ends the search. */
  ghost predicate HasRoom(t: Table, key: CString)
  {
    exists a | 0 <= a < |t| :: StopsFor(t, key)[a]
  }

  lemma {:induction false} EmptySound(t: Table)
    requires forall a | 0 <= a < |t| :: t[a] == Free
    ensures Sound(t)
  {
  }

  /** No string is stored twice. */
  lemma StoredOnce(t: Table, a: nat, b: nat)
    requires Sound(t) && a < |t| && b < |t| && t[a] != Free && t[a] == t[b]
    ensures a == b
  {
    hide EndsAt, StopsFor;
    var k: nat :| Leads(t, t[a].text, a, k);
    var m: nat :| Leads(t, t[b].text, b, m);
    EndUnique(StopsFor(t, t[a].text), Start(t[a].text, NAME_HASH_PRIME), Decrement(t[a].text, NAME_HASH_PRIME), a, k,
              b, m);
  }

  /** Slots passed by a search are taken, so filling a free one leaves them as they are. */
  lemma Undisturbed(t: Table, key: CString, a: nat, k: nat, free: nat, name: CString)
    requires Leads(t, key, a, k) && free < |t| && t[free] == Free && (a == free ==> name == key)
    ensures Leads(t[free := Name(name)], key, a, k)
  {
    hide Probe, HashNum;
    var t': Table := t[free := Name(name)];
    var start, dec := Start(key, NAME_HASH_PRIME), Decrement(key, NAME_HASH_PRIME);
    forall j: nat | j < k ensures !StopsFor(t', key)[Probe(start, dec, NAME_HASH_PRIME, j)] {
      assert !StopsFor(t, key)[Probe(start, dec, NAME_HASH_PRIME, j)];
    }
  }

  /** Storing a name where its search ended disturbs no other search. */
  lemma StoreSound(t: Table, key: CString, a: nat, k: nat)
    requires Sound(t) && Leads(t, key, a, k)
    ensures Sound(t[a := Name(key)])
  {
    hide Leads, Start, Decrement;
    LeadsStops(t, key, a, k);
    var t': Table := t[a := Name(key)];
    if t[a] != Free {
      assert t' == t;
      return;
    }
    forall b | 0 <= b < |t'| && t'[b] != Free ensures exists m: nat :: Leads(t', t'[b].text, b, m) {
      if b == a {
        Undisturbed(t, key, a, k, a, key);
      } else {
        var m: nat :| Leads(t, t[b].text, b, m);
        Undisturbed(t, t[b].text, b, m, a, key);
      }
    }
  }

  lemma LeadsStops(t: Table, key: CString, a: nat, k: nat)
    requires Leads(t, key, a, k)
    ensures a < |t| && (t[a] == Free || t[a] == Name(key))
  {
  }

  /** The search for a key ends if and only if a slot is free or holds the key. */
  lemma SearchEnds(t: Table, key: CString)
    ensures (exists a: nat, k: nat :: Leads(t, key, a, k)) <==> HasRoom(t, key)
  {
    hide Prime, HashNum;
    var start, dec := Start(key, NAME_HASH_PRIME), Decrement(key, NAME_HASH_PRIME);
    NameSizePrime();
    EndsIff(StopsFor(t, key), start, dec);
    if Ends(StopsFor(t, key), start, dec) {
      var a: nat, k: nat :| EndsAt(StopsFor(t, key), start, dec, a, k);
      assert Leads(t, key, a, k);
    }
    if a: nat, k: nat :| Leads(t, key, a, k) {
      assert EndsAt(StopsFor(t, key), start, dec, a, k);
    }
  }

  /** One call: the number a of the key, and the tables before and after. */
  ghost predicate Call(t: Table, key: CString, a: nat, t': Table)
  {
    Sound(t) && a < |t| && (t[a] == Free || t[a] == Name(key)) && t' == t[a := Name(key)] && Sound(t')
  }

  // ---------- the table in memory ----------

  class Names {
    const slots: array<Slot>

    ghost predicate Valid()
      reads slots
    {
      slots.Length == NAME_HASH_PRIME && Sound(slots[..])
    }

    constructor ()
      ensures Valid() && fresh(slots) && forall a | 0 <= a < NAME_HASH_PRIME :: slots[a] == Free
    {
      slots := new Slot[NAME_HASH_PRIME](_ => Free);
      new;
      EmptySound(slots[..]);
    }

    /** search_name_hashtable: it ends whenever some slot is free or holds the key. */
    method Search(key: CString) returns (at: nat)
      requires Valid() && HasRoom(slots[..], key)
      modifies slots
      ensures Valid() && Call(old(slots[..]), key, at, slots[..])
    {
      hide Start, Decrement, Probe, Prime, Sound;
      ghost var t: Table, k := slots[..], 0;
      ghost var slot :| 0 <= slot < |t| && StopsFor(t, key)[slot];
      var start, dec := MakeHash(key, NAME_HASH_PRIME);
      at := start;
      NameSizePrime();
      ProbeFirst(start, dec, NAME_HASH_PRIME);
      while slots[at] != Free
        invariant at == Probe(start, dec, NAME_HASH_PRIME, k) < NAME_HASH_PRIME && slots[..] == t
        invariant Passed(StopsFor(t, key), start, dec, k)
        decreases NAME_HASH_PRIME - k
      {
        if slots[at] == Name(key) {
          break;
        }
        PassedBound(StopsFor(t, key), start, dec, k + 1, slot);
        ProbeStep(start, dec, NAME_HASH_PRIME, k);
        var next := at - dec;
        at := if next < 0 then next + NAME_HASH_PRIME else next;
        k := k + 1;
      }
      StoreSound(t, key, at, k);
      slots[at] := Name(key);
      assert slots[..] == t[at := Name(key)];
    }
  }

  // ---------- runs ----------

  ghost predicate Run(ts: seq<Table>, keys: seq<CString>, numbers: seq<nat>)
  {
    |keys| == |numbers| && |ts| == |keys| + 1
      && forall i | 0 <= i < |keys| :: Call(ts[i], keys[i], numbers[i], ts[i + 1])
  }

  /** What is stored stays where it is. */
  lemma {:induction false} Stays(ts: seq<Table>, keys: seq<CString>, numbers: seq<nat>, i: nat, m: nat, a: nat)
    requires Run(ts, keys, numbers) && i <= m <= |keys| && a < NAME_HASH_PRIME && ts[i][a] != Free
    ensures ts[m][a] == ts[i][a]
    decreases m - i
  {
    hide Sound;
    if i < m {
      assert Call(ts[i], keys[i], numbers[i], ts[i + 1]);
      Stays(ts, keys, numbers, i + 1, m, a);
    }
  }

  /** Over any run equal strings, and only they, get equal numbers. */
  lemma Interns(ts: seq<Table>, keys: seq<CString>, numbers: seq<nat>, i: nat, j: nat)
    requires Run(ts, keys, numbers) && i < |keys| && j < |keys|
    ensures numbers[i] == numbers[j] <==> keys[i] == keys[j]
  {
    hide Sound;
    var n := |keys|;
    assert Call(ts[i], keys[i], numbers[i], ts[i + 1]) && Call(ts[j], keys[j], numbers[j], ts[j + 1]);
    assert Call(ts[n - 1], keys[n - 1], numbers[n - 1], ts[n]);
    Stays(ts, keys, numbers, i + 1, n, numbers[i]);
    Stays(ts, keys, numbers, j + 1, n, numbers[j]);
    if keys[i] == keys[j] { StoredOnce(ts[n], numbers[i], numbers[j]); }
  }
}
