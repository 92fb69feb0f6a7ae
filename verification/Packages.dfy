/** dpkg's package and status tables, and what searching them finds. */
module Packages {
  import opened Divisors
  import opened Probing
  import opened NameTable
  import opened Versions
  import opened Options

  /** For the root of a list of alternatives, count is what the source keeps in the version field. */
  datatype Edge = Edge(kind: nat, op: Operator, name: CString, version: CString, count: nat)

  datatype Package = Package(name: CString, version: CString, edges: seq<Edge>)

  /** The package's slot, and its status: what is wanted, a flag and what is the case. */
  datatype Status = Status(package: nat, text: CString)

  datatype Database = Database(packages: seq<Option<Package>>, statuses: seq<Option<Status>>)

  // ---------- the tables ----------

  ghost predicate Shaped(db: Database)
  {
    && |db.packages| == PACKAGE_HASH_PRIME && |db.statuses| == STATUS_HASH_PRIME
    && forall a | 0 <= a < STATUS_HASH_PRIME && db.statuses[a].Some? ::
         db.statuses[a].value.package < PACKAGE_HASH_PRIME && db.packages[db.statuses[a].value.package].Some?
  }

  predicate Matches(p: Package, name: CString, version: CString, op: Operator)
  {
    p.name == name && Holds(p.version, version, op)
  }

  /** No slot probed before the k-th is free. */
  ghost predicate Taken(packages: seq<Option<Package>>, name: CString, k: nat)
    requires |packages| == PACKAGE_HASH_PRIME
  {
    forall j: nat | j < k :: packages[PackageProbe(name, j)].Some?
  }

  function PackageProbe(name: CString, k: nat): (a: nat)
    ensures a < PACKAGE_HASH_PRIME
  {
    Probe(Start(name, PACKAGE_HASH_PRIME), Decrement(name, PACKAGE_HASH_PRIME), PACKAGE_HASH_PRIME, k)
  }

  /** Every package stored can be reached from where the search for its name starts. */
  ghost predicate Reachable(packages: seq<Option<Package>>)
    requires |packages| == PACKAGE_HASH_PRIME
  {
    forall a | 0 <= a < PACKAGE_HASH_PRIME && packages[a].Some? ::
      exists k: nat :: a == PackageProbe(packages[a].value.name, k) && Taken(packages, packages[a].value.name, k)
  }

  function StatusName(db: Database, a: nat): CString
    requires Shaped(db) && a < STATUS_HASH_PRIME && db.statuses[a].Some?
  {
    db.packages[db.statuses[a].value.package].value.name
  }

  /** A search for a package's status stops at a free slot or at its status. */
  ghost function StatusStops(db: Database, name: CString): (s: Stops)
    requires Shaped(db)
    ensures |s| == STATUS_HASH_PRIME
    ensures forall a | 0 <= a < |s| :: s[a] == (db.statuses[a].Some? ==> StatusName(db, a) == name)
  {
    seq(STATUS_HASH_PRIME, a requires 0 <= a < STATUS_HASH_PRIME => db.statuses[a].Some? ==> StatusName(db, a) == name)
  }

  ghost predicate StatusLeads(db: Database, name: CString, a: nat, k: nat)
    requires Shaped(db)
  {
    EndsAt(StatusStops(db, name), Start(name, STATUS_HASH_PRIME), Decrement(name, STATUS_HASH_PRIME), a, k)
  }

  /** Every status stored is where the search for its package ends. */
  ghost predicate StatusesFound(db: Database)
    requires Shaped(db)
  {
    forall a | 0 <= a < STATUS_HASH_PRIME && db.statuses[a].Some? ::
      exists k: nat :: StatusLeads(db, StatusName(db, a), a, k)
  }

  /** What is stored is found. */
  ghost predicate Found(db: Database)
  {
    Shaped(db) && Reachable(db.packages) && StatusesFound(db)
  }

  ghost predicate PackageRoom(db: Database)
    requires Shaped(db)
  {
    exists a | 0 <= a < PACKAGE_HASH_PRIME :: db.packages[a].None?
  }

  ghost predicate StatusRoom(db: Database)
    requires Shaped(db)
  {
    exists a | 0 <= a < STATUS_HASH_PRIME :: db.statuses[a].None?
  }

  /** ... and searches for what is not end. */
  ghost predicate Usable(db: Database)
  {
    Found(db) && PackageRoom(db) && StatusRoom(db)
  }

  // ---------- searching for a package ----------

  ghost function PackageStops(packages: seq<Option<Package>>, name: CString, version: CString, op: Operator): (s: Stops)
    requires |packages| == PACKAGE_HASH_PRIME
    ensures |s| == PACKAGE_HASH_PRIME
    ensures forall a | 0 <= a < |s| :: s[a] == (packages[a].Some? ==> Matches(packages[a].value, name, version, op))
  {
    seq(PACKAGE_HASH_PRIME, a requires 0 <= a < PACKAGE_HASH_PRIME =>
      packages[a].Some? ==> Matches(packages[a].value, name, version, op))
  }

  ghost predicate PackageLeads(packages: seq<Option<Package>>, name: CString, version: CString, op: Operator, a: nat,
                               k: nat)
    requires |packages| == PACKAGE_HASH_PRIME
  {
    EndsAt(PackageStops(packages, name, version, op), Start(name, PACKAGE_HASH_PRIME),
           Decrement(name, PACKAGE_HASH_PRIME), a, k)
  }

  /** If a package stored matches, the search does not end at a free slot. */
  lemma MatchEnds(packages: seq<Option<Package>>, name: CString, version: CString, op: Operator, a: nat, k: nat, b: nat)
    requires |packages| == PACKAGE_HASH_PRIME && Reachable(packages) && PackageLeads(packages, name, version, op, a, k)
    requires b < PACKAGE_HASH_PRIME && packages[b].Some? && Matches(packages[b].value, name, version, op)
    ensures packages[a].Some?
  {
    hide Probe, Start, Decrement, Holds;
    var m: nat :| b == PackageProbe(name, m) && Taken(packages, name, m);
    assert PackageStops(packages, name, version, op)[PackageProbe(name, m)];
    if k < m { assert packages[PackageProbe(name, k)].Some?; }
  }

  /** A search that ends at a free slot has missed nothing. */
  lemma NothingMissed(packages: seq<Option<Package>>, name: CString, version: CString, op: Operator, a: nat, k: nat)
    requires |packages| == PACKAGE_HASH_PRIME && Reachable(packages) && PackageLeads(packages, name, version, op, a, k)
    requires packages[a].None?
    ensures forall b | 0 <= b < PACKAGE_HASH_PRIME && packages[b].Some? ::
              !Matches(packages[b].value, name, version, op)
  {
    hide Probe, Start, Decrement, Holds;
    forall b | 0 <= b < PACKAGE_HASH_PRIME && packages[b].Some? ensures !Matches(packages[b].value, name, version, op) {
      if Matches(packages[b].value, name, version, op) {
        MatchEnds(packages, name, version, op, a, k, b);
      }
    }
  }

  /** search_package_hashtable: a package of that name with an acceptable version, or a free slot if there is none. */
  method SearchPackage(db: Database, name: CString, version: CString, op: Operator) returns (at: nat)
    requires Found(db) && PackageRoom(db)
    ensures at < PACKAGE_HASH_PRIME
    ensures if db.packages[at].Some? then Matches(db.packages[at].value, name, version, op)
            else forall b | 0 <= b < PACKAGE_HASH_PRIME && db.packages[b].Some? ::
                   !Matches(db.packages[b].value, name, version, op)
    ensures exists k: nat :: PackageLeads(db.packages, name, version, op, at, k)
  {
    hide Start, Decrement, Probe, Prime, Holds, Reachable, StatusesFound;
    ghost var stops, k := PackageStops(db.packages, name, version, op), 0;
    ghost var slot :| 0 <= slot < PACKAGE_HASH_PRIME && db.packages[slot].None?;
    var start, dec := MakeHash(name, PACKAGE_HASH_PRIME);
    at := start;
    PackageSizePrime();
    ProbeFirst(start, dec, PACKAGE_HASH_PRIME);
    while db.packages[at].Some?
      invariant at == Probe(start, dec, PACKAGE_HASH_PRIME, k) < PACKAGE_HASH_PRIME && Passed(stops, start, dec, k)
      decreases PACKAGE_HASH_PRIME - k
    {
      if db.packages[at].value.name == name {
        if op == VerAny { HoldsAny(db.packages[at].value.version, version); break; }
        var ok := TestVersion(db.packages[at].value.version, version, op);
        if ok { break; }
      }
      PassedBound(stops, start, dec, k + 1, slot);
      ProbeStep(start, dec, PACKAGE_HASH_PRIME, k);
      var next := at - dec;
      at := if next < 0 then next + PACKAGE_HASH_PRIME else next;
      k := k + 1;
    }
    assert PackageLeads(db.packages, name, version, op, at, k);
    if db.packages[at].None? { NothingMissed(db.packages, name, version, op, at, k); }
  }

  lemma HoldsAny(a: CString, b: CString)
    ensures Holds(a, b, VerAny)
  {
  }

  /** Storing a package where the search for its name and version ended keeps every package reachable. */
  lemma StoreReachable(packages: seq<Option<Package>>, p: Package, op: Operator, a: nat, k: nat)
    requires |packages| == PACKAGE_HASH_PRIME && Reachable(packages)
    requires PackageLeads(packages, p.name, p.version, op, a, k)
    ensures Reachable(packages[a := Some(p)])
  {
    hide Probe, Start, Decrement, Holds;
    var packages' := packages[a := Some(p)];
    forall b | 0 <= b < PACKAGE_HASH_PRIME && packages'[b].Some?
      ensures exists m: nat :: b == PackageProbe(packages'[b].value.name, m)
                               && Taken(packages', packages'[b].value.name, m)
    {
      if b == a {
        assert b == PackageProbe(p.name, k) && Taken(packages', p.name, k) by {
          forall j: nat | j < k ensures packages'[PackageProbe(p.name, j)].Some? {
            assert !PackageStops(packages, p.name, p.version, op)[PackageProbe(p.name, j)];
          }
        }
      } else {
        var name := packages[b].value.name;
        var m: nat :| b == PackageProbe(name, m) && Taken(packages, name, m);
        assert Taken(packages', name, m);
      }
    }
  }

  // ---------- searching for a status ----------

  /** search_status_hashtable: the package's status, or a free slot if it has none. */
  method SearchStatus(db: Database, name: CString) returns (at: nat)
    requires Found(db) && StatusRoom(db)
    ensures at < STATUS_HASH_PRIME && exists k: nat :: StatusLeads(db, name, at, k)
    ensures db.statuses[at].Some? ==> StatusName(db, at) == name
    ensures forall b | 0 <= b < STATUS_HASH_PRIME && db.statuses[b].Some? && StatusName(db, b) == name :: b == at
  {
    hide Start, Decrement, Probe, Prime, Reachable, StatusesFound;
    ghost var stops, k := StatusStops(db, name), 0;
    ghost var slot :| 0 <= slot < STATUS_HASH_PRIME && db.statuses[slot].None?;
    var start, dec := MakeHash(name, STATUS_HASH_PRIME);
    at := start;
    StatusSizePrime();
    ProbeFirst(start, dec, STATUS_HASH_PRIME);
    while db.statuses[at].Some?
      invariant at == Probe(start, dec, STATUS_HASH_PRIME, k) < STATUS_HASH_PRIME && Passed(stops, start, dec, k)
      decreases STATUS_HASH_PRIME - k
    {
      if name == StatusName(db, at) { break; }
      PassedBound(stops, start, dec, k + 1, slot);
      ProbeStep(start, dec, STATUS_HASH_PRIME, k);
      var next := at - dec;
      at := if next < 0 then next + STATUS_HASH_PRIME else next;
      k := k + 1;
    }
    assert StatusLeads(db, name, at, k);
    StatusEnd(db, name, at, k);
  }

  lemma StatusEnd(db: Database, name: CString, a: nat, k: nat)
    requires Shaped(db) && StatusesFound(db) && StatusLeads(db, name, a, k)
    ensures forall b | 0 <= b < STATUS_HASH_PRIME && db.statuses[b].Some? && StatusName(db, b) == name :: b == a
  {
    hide EndsAt;
    forall b | 0 <= b < STATUS_HASH_PRIME && db.statuses[b].Some? && StatusName(db, b) == name ensures b == a {
      var m: nat :| StatusLeads(db, StatusName(db, b), b, m);
      EndUnique(StatusStops(db, name), Start(name, STATUS_HASH_PRIME), Decrement(name, STATUS_HASH_PRIME), a, k, b, m);
    }
  }

  // ---------- storing ----------

  function WithPackage(db: Database, a: nat, p: Package): Database
    requires a < |db.packages|
  {
    db.(packages := db.packages[a := Some(p)])
  }

  function WithStatus(db: Database, a: nat, s: Status): Database
    requires a < |db.statuses|
  {
    db.(statuses := db.statuses[a := Some(s)])
  }

  /** Storing a package where its search ended: a package that is replaced had the same name. */
  lemma StorePackageFound(db: Database, p: Package, op: Operator, a: nat, k: nat)
    requires Found(db) && a < PACKAGE_HASH_PRIME && PackageLeads(db.packages, p.name, p.version, op, a, k)
    ensures Found(WithPackage(db, a, p))
  {
    hide Probe, Start, Decrement, Holds, Reachable;
    var db' := WithPackage(db, a, p);
    StoreReachable(db.packages, p, op, a, k);
    assert PackageStops(db.packages, p.name, p.version, op)[a];
    forall b | 0 <= b < STATUS_HASH_PRIME && db'.statuses[b].Some?
      ensures exists m: nat :: StatusLeads(db', StatusName(db', b), b, m)
    {
      var m: nat :| StatusLeads(db, StatusName(db, b), b, m);
      assert StatusStops(db', StatusName(db, b)) == StatusStops(db, StatusName(db, b));
      assert StatusLeads(db', StatusName(db', b), b, m);
    }
  }

  /** Storing a status where the search for its package ended. */
  lemma StoreStatusFound(db: Database, s: Status, a: nat, k: nat)
    requires Found(db) && a < STATUS_HASH_PRIME && s.package < PACKAGE_HASH_PRIME && db.packages[s.package].Some?
    requires StatusLeads(db, db.packages[s.package].value.name, a, k)
    ensures Found(WithStatus(db, a, s))
  {
    hide Probe, Start, Decrement, Reachable;
    var db', name := WithStatus(db, a, s), db.packages[s.package].value.name;
    forall b | 0 <= b < STATUS_HASH_PRIME && db'.statuses[b].Some?
      ensures exists m: nat :: StatusLeads(db', StatusName(db', b), b, m)
    {
      if b == a {
        StatusUndisturbed(db, s, a, name, a, k);
      } else {
        var m: nat :| StatusLeads(db, StatusName(db, b), b, m);
        StatusUndisturbed(db, s, a, StatusName(db, b), b, m);
      }
    }
  }

  /** Other searches pass the slot where a status is stored, or did not get there. */
  lemma StatusUndisturbed(db: Database, s: Status, a: nat, name: CString, b: nat, m: nat)
    requires Shaped(db) && a < STATUS_HASH_PRIME && s.package < PACKAGE_HASH_PRIME && db.packages[s.package].Some?
    requires StatusStops(db, db.packages[s.package].value.name)[a] && StatusLeads(db, name, b, m)
    requires b == a ==> name == db.packages[s.package].value.name
    ensures Shaped(WithStatus(db, a, s)) && StatusLeads(WithStatus(db, a, s), name, b, m)
  {
    hide Probe, Start, Decrement;
    var db' := WithStatus(db, a, s);
    var start, dec := Start(name, STATUS_HASH_PRIME), Decrement(name, STATUS_HASH_PRIME);
    forall j: nat | j < m
      ensures !StatusStops(db', name)[Probe(start, dec, STATUS_HASH_PRIME, j)]
    {
      assert !StatusStops(db, name)[Probe(start, dec, STATUS_HASH_PRIME, j)];
    }
  }
}
