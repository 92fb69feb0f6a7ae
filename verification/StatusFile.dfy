/** Reading dpkg's status file: the tables that it fills, and what they then hold. */
module StatusFile {
  import opened Probing
  import opened NameTable
  import opened Versions
  import opened Packages
  import opened EdgeLists
  import opened Dependencies
  import opened Options

  /** What one paragraph of the file says: a package with its edges, and its status. */
  datatype Entry = Entry(p: Package, text: CString)

  /** The same package in the same version. */
  predicate Alike(p: Package, q: Package)
  {
    p.name == q.name && Holds(p.version, q.version, VerEqual)
  }

  lemma AlikeEquivalence(p: Package, q: Package, r: Package)
    ensures Alike(p, p) && (Alike(p, q) <==> Alike(q, p)) && (Alike(p, q) && Alike(q, r) ==> Alike(p, r))
  {
    hide CompareVersions, Parse;
    VersionsOrdered(Parse(p.version), Parse(q.version), Parse(r.version));
    VersionsOrdered(Parse(r.version), Parse(q.version), Parse(p.version));
  }

  // ---------- what the file says ----------

  /** The status in the last paragraph for the package of that name. */
  function LastText(entries: seq<Entry>, name: CString): Option<CString>
  {
    if entries == [] then None
    else
      var e := entries[|entries| - 1];
      if e.p.name == name then Some(e.text) else LastText(entries[..|entries| - 1], name)
  }

  /** A package that no later one is alike. */
  predicate Latest(entries: seq<Entry>, q: Package)
  {
    entries != [] &&
    var e := entries[|entries| - 1];
    (e.p == q || (!Alike(e.p, q) && Latest(entries[..|entries| - 1], q)))
  }

  // ---------- what the tables say ----------

  ghost predicate HasPackage(db: Database, q: Package)
  {
    exists a | 0 <= a < |db.packages| :: db.packages[a] == Some(q)
  }

  ghost predicate HasStatus(db: Database, name: CString, text: CString)
    requires Shaped(db)
  {
    exists b | 0 <= b < STATUS_HASH_PRIME :: StatusIs(db, b, name, text)
  }

  predicate StatusIs(db: Database, b: nat, name: CString, text: CString)
    requires Shaped(db) && b < STATUS_HASH_PRIME
  {
    db.statuses[b].Some? && StatusName(db, b) == name && db.statuses[b].value.text == text
  }

  /** No two packages in the table are alike. */
  ghost predicate NoTwins(db: Database)
  {
    forall a, b | 0 <= a < |db.packages| && 0 <= b < |db.packages| && a != b && db.packages[a].Some?
      && db.packages[b].Some? ::
      !Alike(db.packages[a].value, db.packages[b].value)
  }

  /** The tables hold exactly what the file says. */
  ghost predicate Reflects(db: Database, entries: seq<Entry>)
    requires Shaped(db)
  {
    && NoTwins(db)
    && (forall q: Package :: HasPackage(db, q) <==> Latest(entries, q))
    && (forall name: CString, text: CString :: HasStatus(db, name, text) <==> LastText(entries, name) == Some(text))
  }

  // ---------- one paragraph ----------

  /** The package goes to a free slot when nothing in the table is alike, else it replaces what is. */
  ghost predicate PlaceFor(db: Database, a: nat, p: Package)
    requires Shaped(db)
  {
    && a < PACKAGE_HASH_PRIME
    && if db.packages[a].Some? then Alike(db.packages[a].value, p)
       else forall b | 0 <= b < PACKAGE_HASH_PRIME && db.packages[b].Some? :: !Alike(db.packages[b].value, p)
  }

  lemma StoredTwins(db: Database, a: nat, p: Package)
    requires Shaped(db) && NoTwins(db) && PlaceFor(db, a, p)
    ensures NoTwins(WithPackage(db, a, p))
    ensures forall b | 0 <= b < PACKAGE_HASH_PRIME && b != a && db.packages[b].Some? :: !Alike(p, db.packages[b].value)
  {
    hide Alike;
    forall b | 0 <= b < PACKAGE_HASH_PRIME && b != a && db.packages[b].Some?
      ensures !Alike(p, db.packages[b].value) && !Alike(db.packages[b].value, p)
    {
      AlikeEquivalence(db.packages[b].value, p, p);
      if db.packages[a].Some? {
        AlikeEquivalence(db.packages[b].value, p, db.packages[a].value);
        AlikeEquivalence(db.packages[a].value, p, p);
      }
    }
  }

  lemma StoredPackages(db: Database, entries: seq<Entry>, a: nat, e: Entry)
    requires Shaped(db) && NoTwins(db) && PlaceFor(db, a, e.p)
    requires forall q: Package :: HasPackage(db, q) <==> Latest(entries, q)
    ensures forall q: Package :: HasPackage(WithPackage(db, a, e.p), q) <==> Latest(entries + [e], q)
  {
    hide Alike;
    var db' := WithPackage(db, a, e.p);
    StoredTwins(db, a, e.p);
    assert (entries + [e])[..|entries|] == entries;
    forall q: Package
      ensures HasPackage(db', q) <==> q == e.p || (!Alike(e.p, q) && HasPackage(db, q))
    {
      if q == e.p {
        assert db'.packages[a] == Some(q);
      } else if b :| 0 <= b < |db.packages| && db.packages[b] == Some(q) {
        if b == a { AlikeEquivalence(q, e.p, e.p); } else { assert db'.packages[b] == Some(q); }
      }
    }
  }

  lemma StoredStatuses(db: Database, entries: seq<Entry>, num: nat, at: nat, e: Entry)
    requires Shaped(db) && num < PACKAGE_HASH_PRIME && db.packages[num] == Some(e.p) && at < STATUS_HASH_PRIME
    requires forall b | 0 <= b < STATUS_HASH_PRIME && db.statuses[b].Some? && StatusName(db, b) == e.p.name :: b == at
    requires db.statuses[at].Some? ==> StatusName(db, at) == e.p.name
    requires forall name: CString, text: CString :: HasStatus(db, name, text) <==> LastText(entries, name) == Some(text)
    ensures Shaped(WithStatus(db, at, Status(num, e.text)))
    ensures forall name: CString, text: CString ::
              HasStatus(WithStatus(db, at, Status(num, e.text)), name, text) <==>
                  LastText(entries + [e], name) == Some(text)
  {
    var db' := WithStatus(db, at, Status(num, e.text));
    assert (entries + [e])[..|entries|] == entries;
    forall name: CString, text: CString
      ensures HasStatus(db', name, text) <==> if name == e.p.name then text == e.text else HasStatus(db, name, text)
    {
      if b :| 0 <= b < STATUS_HASH_PRIME && StatusIs(db', b, name, text) {
        if b != at { assert StatusIs(db, b, name, text); }
      }
      if name == e.p.name {
        assert StatusIs(db', at, name, e.text);
      } else if b :| 0 <= b < STATUS_HASH_PRIME && StatusIs(db, b, name, text) {
        assert StatusIs(db', b, name, text);
      }
    }
  }

  /** A package that replaces one of the same name changes no status. */
  lemma StatusesStay(db: Database, a: nat, p: Package)
    requires Shaped(db) && a < PACKAGE_HASH_PRIME && (db.packages[a].Some? ==> db.packages[a].value.name == p.name)
    ensures Shaped(WithPackage(db, a, p))
    ensures forall name: CString, text: CString :: HasStatus(WithPackage(db, a, p), name, text) <==>
              HasStatus(db, name, text)
  {
    var db' := WithPackage(db, a, p);
    forall name: CString, text: CString
      ensures HasStatus(db', name, text) <==> HasStatus(db, name, text)
    {
      assert forall b | 0 <= b < STATUS_HASH_PRIME :: StatusIs(db', b, name, text) <==> StatusIs(db, b, name, text);
    }
  }

  // ---------- room ----------

  /** At most n slots are taken. */
  ghost predicate Sparse(db: Database, n: nat)
  {
    exists p: seq<nat>, s: seq<nat> :: TakenIn(db, n, p, s)
  }

  /** ... by packages at p and statuses at s. */
  ghost predicate TakenIn(db: Database, n: nat, p: seq<nat>, s: seq<nat>)
  {
    && |p| <= n && |s| <= n
    && (forall a: nat | a < |db.packages| && db.packages[a].Some? :: a in p)
    && (forall b: nat | b < |db.statuses| && db.statuses[b].Some? :: b in s)
  }

  /** Fewer than n numbers leave one below n out. */
  lemma {:induction false} LeftOut(p: seq<nat>, n: nat) returns (a: nat)
    requires |p| < n
    ensures a < n && a !in p
  {
    a :| a < n && a !in p by { Pigeons(p, n); }
  }

  lemma {:induction false} Pigeons(p: seq<nat>, n: nat)
    requires |p| < n
    ensures exists a: nat :: a < n && a !in p
    decreases n
  {
    var last := n - 1;
    if last in p {
      var i :| 0 <= i < |p| && p[i] == last;
      var rest := p[..i] + p[i + 1..];
      Pigeons(rest, n - 1);
      var a: nat :| a < n - 1 && a !in rest;
      assert forall k | 0 <= k < |p| && k != i :: p[k] in rest by {
        assert forall k | 0 <= k < i :: rest[k] == p[k];
        assert forall k | i < k < |p| :: rest[k - 1] == p[k];
      }
      assert a !in p;
    } else {
      assert last !in p;
    }
  }

  lemma SparseRoom(db: Database, n: nat)
    requires Shaped(db) && Sparse(db, n) && n < STATUS_HASH_PRIME
    ensures PackageRoom(db) && StatusRoom(db)
  {
    var p, s :| TakenIn(db, n, p, s);
    var a := LeftOut(p, PACKAGE_HASH_PRIME);
    var b := LeftOut(s, STATUS_HASH_PRIME);
    assert db.packages[a].None? && db.statuses[b].None?;
  }

  lemma StoreSparse(db: Database, n: nat, a: nat, p: Package, b: nat, s: Status)
    requires Shaped(db) && Sparse(db, n) && a < PACKAGE_HASH_PRIME && b < STATUS_HASH_PRIME
    ensures Sparse(WithStatus(WithPackage(db, a, p), b, s), n + 1)
  {
    var ps, ss :| TakenIn(db, n, ps, ss);
    var db' := WithStatus(WithPackage(db, a, p), b, s);
    assert TakenIn(db', n + 1, ps + [a], ss + [b]);
  }

  // ---------- reading ----------

  /** The end of fill_package_struct: the package goes into its table. */
  method StorePackage(db: Database, p: Package) returns (num: nat)
    requires Found(db) && PackageRoom(db)
    ensures num < PACKAGE_HASH_PRIME && Found(WithPackage(db, num, p)) && PlaceFor(db, num, p)
  {
    hide Reachable, StatusesFound, Holds;
    num := SearchPackage(db, p.name, p.version, VerEqual);
    ghost var k: nat :| PackageLeads(db.packages, p.name, p.version, VerEqual, num, k);
    StorePackageFound(db, p, VerEqual, num, k);
  }

  /** One paragraph: the package and its status go into their tables. */
  method StoreEntry(db: Database, e: Entry, ghost entries: seq<Entry>) returns (db': Database)
    requires Usable(db) && Reflects(db, entries)
    ensures Found(db') && Reflects(db', entries + [e])
    ensures exists num: nat, at: nat :: num < PACKAGE_HASH_PRIME && at < STATUS_HASH_PRIME
              && db' == WithStatus(WithPackage(db, num, e.p), at, Status(num, e.text))
  {
    hide Reachable, StatusesFound, Holds, HasPackage, HasStatus, Latest, LastText, StatusLeads, NoTwins;
    var num := StorePackage(db, e.p);
    var db1 := WithPackage(db, num, e.p);
    StoredTwins(db, num, e.p);
    StoredPackages(db, entries, num, e);
    StatusesStay(db, num, e.p);
    var at := SearchStatus(db1, e.p.name);
    ghost var k: nat :| StatusLeads(db1, e.p.name, at, k);
    StoreStatusFound(db1, Status(num, e.text), at, k);
    StoredStatuses(db1, entries, num, at, e);
    db' := WithStatus(db1, at, Status(num, e.text));
    SamePackages(db1, db');
  }

  lemma SamePackages(db: Database, db': Database)
    requires db'.packages == db.packages
    ensures NoTwins(db') == NoTwins(db) && forall q: Package :: HasPackage(db', q) == HasPackage(db, q)
  {
  }

  function Empty(): (db: Database)
    ensures Shaped(db) && forall a | 0 <= a < PACKAGE_HASH_PRIME :: db.packages[a].None?
    ensures forall b | 0 <= b < STATUS_HASH_PRIME :: db.statuses[b].None?
  {
    Database(seq(PACKAGE_HASH_PRIME, _ => None), seq(STATUS_HASH_PRIME, _ => None))
  }

  lemma EmptyReflects()
    ensures Found(Empty()) && Reflects(Empty(), []) && Sparse(Empty(), 0)
  {
    hide Empty;
    var db := Empty();
    assert TakenIn(db, 0, [], []);
    assert forall name: CString, text: CString, b | 0 <= b < STATUS_HASH_PRIME :: !StatusIs(db, b, name, text);
  }

  /** index_status_file: tables that have room for all the paragraphs hold exactly what these say, and are fit for
      the dependency check. */
  method IndexStatusFile(entries: seq<Entry>) returns (db: Database)
    requires |entries| < STATUS_HASH_PRIME
    ensures Usable(db) && Reflects(db, entries)
  {
    hide Found, PackageRoom, StatusRoom, Reflects, Sparse;
    db := Empty();
    EmptyReflects();
    for i := 0 to |entries|
      invariant Found(db) && Shaped(db) && Reflects(db, entries[..i]) && Sparse(db, i)
    {
      SparseRoom(db, i);
      ghost var db0 := db;
      db := StoreEntry(db, entries[i], entries[..i]);
      ghost var num: nat, at: nat :| num < PACKAGE_HASH_PRIME && at < STATUS_HASH_PRIME
        && db == WithStatus(WithPackage(db0, num, entries[i].p), at, Status(num, entries[i].text));
      StoreSparse(db0, i, num, entries[i].p, at, Status(num, entries[i].text));
      assert entries[..i] + [entries[i]] == entries[..i + 1];
      FoundShaped(db);
    }
    SparseRoom(db, |entries|);
    assert entries[..|entries|] == entries;
  }

  lemma FoundShaped(db: Database)
    requires Found(db)
    ensures Shaped(db)
  {
  }

  /** Edges that are laid out in the paragraphs are so in the tables. */
  lemma LaidOutTables(db: Database, entries: seq<Entry>)
    requires Shaped(db) && Reflects(db, entries) && forall i | 0 <= i < |entries| :: Layout(entries[i].p.edges, 0)
    ensures LaidOut(db)
  {
    hide Layout, HasStatus, LastText, NoTwins;
    forall a | 0 <= a < PACKAGE_HASH_PRIME && db.packages[a].Some?
      ensures Layout(db.packages[a].value.edges, 0)
    {
      assert HasPackage(db, db.packages[a].value);
      LatestListed(entries, db.packages[a].value);
    }
  }

  lemma {:induction false} LatestListed(entries: seq<Entry>, q: Package)
    requires Latest(entries, q)
    ensures exists i :: 0 <= i < |entries| && entries[i].p == q
  {
    hide Alike;
    if entries[|entries| - 1].p != q {
      LatestListed(entries[..|entries| - 1], q);
      var i :| 0 <= i < |entries| - 1 && entries[..|entries| - 1][i].p == q;
      assert entries[i].p == q;
    }
  }

  // ---------- the check, as a property of the file ----------

  ghost predicate ReadyIn(entries: seq<Entry>, name: CString, kind: nat)
  {
    LastText(entries, name).Some? && Fits(Status(0, LastText(entries, name).value), kind)
  }

  ghost predicate SatisfiesIn(entries: seq<Entry>, e: Edge, q: Package)
  {
    Latest(entries, q) && (Matches(q, e.name, e.version, e.op) || Provides(q, e.name))
      && ReadyIn(entries, q.name, e.kind)
  }

  ghost predicate SatisfiedIn(entries: seq<Entry>, e: Edge)
  {
    exists q: Package :: SatisfiesIn(entries, e, q)
  }

  ghost predicate MetIn(entries: seq<Entry>, g: seq<Edge>)
  {
    exists m | 0 <= m < |g| :: SatisfiedIn(entries, g[m])
  }

  /** A package of the file that is to be installed has a dependency none of whose alternatives is satisfied. */
  ghost predicate BrokenIn(entries: seq<Entry>, q: Package)
    requires Layout(q.edges, 0)
  {
    && Latest(entries, q) && ReadyIn(entries, q.name, EDGE_DEPENDS)
    && exists g | 0 <= g < |Groups(q.edges, 0)| :: !MetIn(entries, Groups(q.edges, 0)[g])
  }

  lemma ReadyAlso(db: Database, entries: seq<Entry>, name: CString, kind: nat)
    requires Shaped(db) && Reflects(db, entries)
    ensures Ready(db, name, kind) <==> ReadyIn(entries, name, kind)
  {
    hide Word, Latest, HasPackage, NoTwins, LastText;
    if Ready(db, name, kind) {
      var a :| 0 <= a < STATUS_HASH_PRIME && db.statuses[a].Some? && StatusName(db, a) == name
               && Fits(db.statuses[a].value, kind);
      assert StatusIs(db, a, name, db.statuses[a].value.text);
      assert HasStatus(db, name, db.statuses[a].value.text);
    }
    if ReadyIn(entries, name, kind) {
      assert HasStatus(db, name, LastText(entries, name).value);
      var b :| 0 <= b < STATUS_HASH_PRIME && StatusIs(db, b, name, LastText(entries, name).value);
      assert Fits(db.statuses[b].value, kind);
    }
  }

  lemma SatisfiedAlso(db: Database, entries: seq<Entry>, e: Edge)
    requires Shaped(db) && Reflects(db, entries)
    ensures Satisfied(db, e) <==> SatisfiedIn(entries, e)
  {
    hide Ready, ReadyIn, Latest, Matches, Provides, HasStatus, LastText, NoTwins;
    if i :| 0 <= i < PACKAGE_HASH_PRIME && SatisfiedBy(db, e, i) {
      var q := db.packages[i].value;
      assert HasPackage(db, q);
      ReadyAlso(db, entries, q.name, e.kind);
      assert SatisfiesIn(entries, e, q);
    }
    if q: Package :| SatisfiesIn(entries, e, q) {
      assert HasPackage(db, q);
      var i :| 0 <= i < |db.packages| && db.packages[i] == Some(q);
      ReadyAlso(db, entries, q.name, e.kind);
      assert SatisfiedBy(db, e, i);
    }
  }

  lemma MetAlso(db: Database, entries: seq<Entry>, g: seq<Edge>)
    requires Shaped(db) && Reflects(db, entries)
    ensures GroupMet(db, g) <==> MetIn(entries, g)
  {
    hide Satisfied, SatisfiedIn, Reflects;
    forall m | 0 <= m < |g|
      ensures Satisfied(db, g[m]) <==> SatisfiedIn(entries, g[m])
    {
      SatisfiedAlso(db, entries, g[m]);
    }
  }

  lemma BrokenAlso(db: Database, entries: seq<Entry>, i: nat)
    requires Shaped(db) && LaidOut(db) && Reflects(db, entries) && i < PACKAGE_HASH_PRIME && db.packages[i].Some?
    ensures Latest(entries, db.packages[i].value) && Layout(db.packages[i].value.edges, 0)
    ensures Broken(db, i) <==> BrokenIn(entries, db.packages[i].value)
  {
    hide Ready, ReadyIn, GroupMet, MetIn, Groups, Layout, HasStatus, LastText, NoTwins, Latest;
    var q := db.packages[i].value;
    assert HasPackage(db, q);
    ReadyAlso(db, entries, q.name, EDGE_DEPENDS);
    assert Layout(q.edges, 0);
    forall g | 0 <= g < |Groups(q.edges, 0)|
      ensures GroupMet(db, Groups(q.edges, 0)[g]) <==> MetIn(entries, Groups(q.edges, 0)[g])
    {
      MetAlso(db, entries, Groups(q.edges, 0)[g]);
    }
  }

  /** Reading the file and checking: it ends in an error if and only if the file has a broken package. No table
      is left in what this says. */
  method CheckFile(entries: seq<Entry>) returns (dies: bool)
    requires |entries| < STATUS_HASH_PRIME && forall i | 0 <= i < |entries| :: Layout(entries[i].p.edges, 0)
    ensures dies <==> exists i | 0 <= i < |entries| :: BrokenIn(entries, entries[i].p)
  {
    hide Usable, Layout, Reflects, BrokenIn;
    var db := IndexStatusFile(entries);
    UsableShaped(db);
    LaidOutTables(db, entries);
    dies := CheckDependencies(db);
    BrokenListed(db, entries);
  }

  lemma UsableShaped(db: Database)
    requires Usable(db)
    ensures Shaped(db)
  {
  }

  lemma BrokenListed(db: Database, entries: seq<Entry>)
    requires Shaped(db) && LaidOut(db) && Reflects(db, entries)
    requires forall i | 0 <= i < |entries| :: Layout(entries[i].p.edges, 0)
    ensures (exists i | 0 <= i < PACKAGE_HASH_PRIME :: Broken(db, i)) <==>
              exists i | 0 <= i < |entries| :: BrokenIn(entries, entries[i].p)
  {
    hide Ready, ReadyIn, AllMet, MetIn, Groups, Layout, HasStatus, LastText, NoTwins, Latest, LaidOut;
    if i :| 0 <= i < PACKAGE_HASH_PRIME && Broken(db, i) {
      BrokenAlso(db, entries, i);
      LatestListed(entries, db.packages[i].value);
      var j :| 0 <= j < |entries| && entries[j].p == db.packages[i].value;
      assert BrokenIn(entries, entries[j].p);
    }
    if j :| 0 <= j < |entries| && BrokenIn(entries, entries[j].p) {
      assert HasPackage(db, entries[j].p);
      var i :| 0 <= i < |db.packages| && db.packages[i] == Some(entries[j].p);
      BrokenAlso(db, entries, i);
    }
  }
}
