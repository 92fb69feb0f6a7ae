/** dpkg's dependency check: when it fails. */
module Dependencies {
  import opened Probing
  import opened NameTable
  import opened Versions
  import opened Packages
  import opened EdgeLists
  import opened Options

  /** get_status: the num-th word from i on. */
  function Word(s: CString, i: nat, num: nat): CString
    requires i <= |s|
    decreases num
  {
    if num <= 1 then s[i..SpanNot(s, i, {SPACE, NEWLINE})]
    else Word(s, Span(s, SpanNot(s, i, {SPACE}), {SPACE}), num - 1)
  }

  /** get_status. */
  method GetStatus(text: CString, num: nat) returns (word: CString)
    ensures word == Word(text, 0, num)
  {
    hide Span, SpanNot;
    var at: nat, i := 0, 1;
    while i < num
      invariant at <= |text| && 1 <= i && (i <= num || num == 0)
      invariant Word(text, 0, num) == Word(text, at, if num == 0 then 0 else num - i + 1)
    {
      at := SpanNot(text, at, {SPACE});
      at := Span(text, at, {SPACE});
      i := i + 1;
    }
    word := text[at..SpanNot(text, at, {SPACE, NEWLINE})];
  }

  // ---------- what must hold ----------

  ghost predicate Provides(p: Package, name: CString)
  {
    exists m | 0 <= m < |p.edges| :: p.edges[m].kind == EDGE_PROVIDES && p.edges[m].name == name
  }

  /** The package is installed, or wanted, as the kind of dependency asks. */
  predicate Fits(s: Status, kind: nat)
  {
    (kind == EDGE_PRE_DEPENDS && Word(s.text, 0, 3) == Chars("installed"))
      || (kind == EDGE_DEPENDS && Word(s.text, 0, 1) == Chars("install"))
  }

  ghost predicate Ready(db: Database, name: CString, kind: nat)
    requires Shaped(db)
  {
    exists a | 0 <= a < STATUS_HASH_PRIME ::
      db.statuses[a].Some? && StatusName(db, a) == name && Fits(db.statuses[a].value, kind)
  }

  /** Some package of that name and an acceptable version, or one that provides the name, is ready. */
  ghost predicate Satisfied(db: Database, e: Edge)
    requires Shaped(db)
  {
    exists i | 0 <= i < PACKAGE_HASH_PRIME :: SatisfiedBy(db, e, i)
  }

  ghost predicate SatisfiedBy(db: Database, e: Edge, i: nat)
    requires Shaped(db) && i < PACKAGE_HASH_PRIME
  {
    && db.packages[i].Some?
    && (Matches(db.packages[i].value, e.name, e.version, e.op) || Provides(db.packages[i].value, e.name))
    && Ready(db, db.packages[i].value.name, e.kind)
  }

  /** One of the alternatives is satisfied. */
  ghost predicate GroupMet(db: Database, g: seq<Edge>)
    requires Shaped(db)
  {
    exists m | 0 <= m < |g| :: Satisfied(db, g[m])
  }

  ghost predicate AllMet(db: Database, gs: seq<seq<Edge>>)
    requires Shaped(db)
  {
    forall g | 0 <= g < |gs| :: GroupMet(db, gs[g])
  }

  // ---------- checking one edge ----------

  /** package_satisfies_dependency. */
  method PackageSatisfies(db: Database, i: nat, kind: nat) returns (r: bool)
    requires Usable(db) && i < PACKAGE_HASH_PRIME && db.packages[i].Some?
    ensures r <==> Ready(db, db.packages[i].value.name, kind)
  {
    hide Reachable, StatusesFound, Chars, Word;
    var a := SearchStatus(db, db.packages[i].value.name);
    if db.statuses[a].None? { return false; }
    var word;
    if kind == EDGE_PRE_DEPENDS {
      word := GetStatus(db.statuses[a].value.text, 3);
      return word == Chars("installed");
    }
    if kind == EDGE_DEPENDS {
      word := GetStatus(db.statuses[a].value.text, 1);
      return word == Chars("install");
    }
    return false;
  }

  /** search_for_provides: the next package that provides the name, or -1. */
  method SearchForProvides(db: Database, needle: CString, startAt: int) returns (i: int)
    requires Shaped(db) && startAt >= -1
    ensures i == -1 || (startAt < i < PACKAGE_HASH_PRIME && db.packages[i].Some?
                        && Provides(db.packages[i].value, needle))
    ensures forall b | startAt < b < (if i == -1 then PACKAGE_HASH_PRIME else i) && db.packages[b].Some? ::
              !Provides(db.packages[b].value, needle)
  {
    i := startAt + 1;
    while i < PACKAGE_HASH_PRIME
      invariant startAt < i
      invariant forall b | startAt < b < i && b < PACKAGE_HASH_PRIME && db.packages[b].Some? ::
                  !Provides(db.packages[b].value, needle)
    {
      if db.packages[i].Some? {
        var p := db.packages[i].value;
        var j := 0;
        while j < |p.edges|
          invariant 0 <= j <= |p.edges| && forall m | 0 <= m < j ::
                      !(p.edges[m].kind == EDGE_PROVIDES && p.edges[m].name == needle)
        {
          if p.edges[j].kind == EDGE_PROVIDES && p.edges[j].name == needle { return i; }
          j := j + 1;
        }
      }
      i := i + 1;
    }
    return -1;
  }

  ghost predicate ProvidedBy(db: Database, e: Edge, i: nat)
    requires Shaped(db) && i < PACKAGE_HASH_PRIME
  {
    db.packages[i].Some? && Provides(db.packages[i].value, e.name) && Ready(db, db.packages[i].value.name, e.kind)
  }

  ghost predicate NoneBelow(db: Database, e: Edge, n: nat)
    requires Shaped(db) && n <= PACKAGE_HASH_PRIME
  {
    forall i | 0 <= i < n :: !ProvidedBy(db, e, i)
  }

  lemma ProvidersPassed(db: Database, e: Edge, from: int, to: nat)
    requires Shaped(db) && -1 <= from < to <= PACKAGE_HASH_PRIME && NoneBelow(db, e, from + 1)
    requires forall b | from < b < to && db.packages[b].Some? :: !Provides(db.packages[b].value, e.name)
    ensures NoneBelow(db, e, to)
  {
    hide Provides, Ready;
  }

  /** The loop over the providers. */
  method SomeProvider(db: Database, e: Edge) returns (r: bool)
    requires Usable(db)
    ensures r <==> !NoneBelow(db, e, PACKAGE_HASH_PRIME)
  {
    hide Reachable, StatusesFound, Ready, Provides, NoneBelow;
    var provider := SearchForProvides(db, e.name, -1);
    NoneYet(db, e);
    ProvidersPassed(db, e, -1, if provider == -1 then PACKAGE_HASH_PRIME else provider);
    while provider > -1
      invariant -1 <= provider < PACKAGE_HASH_PRIME
      invariant NoneBelow(db, e, if provider == -1 then PACKAGE_HASH_PRIME else provider)
      invariant provider > -1 ==> db.packages[provider].Some? && Provides(db.packages[provider].value, e.name)
      decreases if provider == -1 then 0 else PACKAGE_HASH_PRIME - provider
    {
      r := PackageSatisfies(db, provider, e.kind);
      OneMore(db, e, provider);
      if r { return; }
      var last := provider;
      provider := SearchForProvides(db, e.name, last);
      ProvidersPassed(db, e, last, if provider == -1 then PACKAGE_HASH_PRIME else provider);
    }
    return false;
  }

  lemma NoneYet(db: Database, e: Edge)
    requires Shaped(db)
    ensures NoneBelow(db, e, 0)
  {
  }

  lemma OneMore(db: Database, e: Edge, i: nat)
    requires Shaped(db) && i < PACKAGE_HASH_PRIME && NoneBelow(db, e, i)
    ensures NoneBelow(db, e, i + 1) <==> !ProvidedBy(db, e, i)
    ensures ProvidedBy(db, e, i) ==> !NoneBelow(db, e, PACKAGE_HASH_PRIME)
  {
    hide ProvidedBy;
  }

  /** Whether a package in the tables satisfies the edge, directly or as a provider. */
  method EdgeSatisfied(db: Database, e: Edge) returns (r: bool)
    requires Usable(db)
    ensures r <==> Satisfied(db, e)
  {
    hide Reachable, StatusesFound, Ready, Provides, NoneBelow, Satisfied, Matches;
    var at := SearchPackage(db, e.name, e.version, e.op);
    var direct := false;
    if db.packages[at].Some? {
      direct := PackageSatisfies(db, at, e.kind);
    }
    if direct {
      MatchSatisfies(db, e, at);
      return true;
    }
    r := SomeProvider(db, e);
    SatisfiedIff(db, e, at);
  }

  lemma MatchSatisfies(db: Database, e: Edge, i: nat)
    requires Shaped(db) && i < PACKAGE_HASH_PRIME && db.packages[i].Some?
    requires Matches(db.packages[i].value, e.name, e.version, e.op)
    requires Ready(db, db.packages[i].value.name, e.kind)
    ensures Satisfied(db, e)
  {
    hide Ready, Provides, Matches;
    assert SatisfiedBy(db, e, i);
  }

  /** Whichever match the search found: whether it is ready depends on its name only, which all matches share. */
  lemma SatisfiedIff(db: Database, e: Edge, at: nat)
    requires Shaped(db) && at < PACKAGE_HASH_PRIME
    requires if db.packages[at].Some? then Matches(db.packages[at].value, e.name, e.version, e.op)
             && !Ready(db, db.packages[at].value.name, e.kind)
             else forall b | 0 <= b < PACKAGE_HASH_PRIME && db.packages[b].Some? ::
                    !Matches(db.packages[b].value, e.name, e.version, e.op)
    ensures Satisfied(db, e) <==> !NoneBelow(db, e, PACKAGE_HASH_PRIME)
  {
    hide Ready, Provides, Holds;
    if i :| 0 <= i < PACKAGE_HASH_PRIME && SatisfiedBy(db, e, i) {
      assert ProvidedBy(db, e, i);
    }
    if i :| 0 <= i < PACKAGE_HASH_PRIME && ProvidedBy(db, e, i) {
      assert SatisfiedBy(db, e, i);
    }
  }

  // ---------- checking a package ----------

  /** At edge j, with everything before it met, and no list of alternatives begun. */
  ghost predicate Between(db: Database, edges: seq<Edge>, j: nat, number: nat, root: Option<Edge>)
    requires Shaped(db) && Layout(edges, 0)
  {
    && j <= |edges| && Layout(edges, j) && (number == 0 || (number == 1 && root == None))
    && (AllMet(db, Groups(edges, 0)) <==> AllMet(db, Groups(edges, j)))
  }

  /** At edge j, within the list of alternatives of the root at r: number are left, and none before j is satisfied. */
  ghost predicate Within(db: Database, edges: seq<Edge>, j: nat, number: nat, root: Option<Edge>, r: nat)
    requires Shaped(db) && Layout(edges, 0)
  {
    && r < j < |edges| && Layout(edges, r) && IsRoot(edges[r]) && root == Some(edges[r])
    && number >= 1 && j + number == r + 1 + edges[r].count && AllKind(edges, r + 1, j + number, edges[r].kind - 1)
    && (forall m | r < m < j :: !Satisfied(db, edges[m]))
    && (AllMet(db, Groups(edges, 0)) <==> AllMet(db, Groups(edges, r)))
  }

  lemma AllMetFirst(db: Database, g: seq<Edge>, gs: seq<seq<Edge>>)
    requires Shaped(db)
    ensures AllMet(db, [g] + gs) <==> GroupMet(db, g) && AllMet(db, gs)
  {
    hide GroupMet;
    var all := [g] + gs;
    if AllMet(db, all) {
      assert all[0] == g;
      forall i | 0 <= i < |gs| ensures GroupMet(db, gs[i]) { assert all[i + 1] == gs[i]; }
    }
  }

  lemma StartBetween(db: Database, edges: seq<Edge>)
    requires Shaped(db) && Layout(edges, 0)
    ensures Between(db, edges, 0, 0, None)
  {
  }

  /** An edge that is no dependency. */
  lemma OtherEdge(db: Database, edges: seq<Edge>, j: nat, number: nat, root: Option<Edge>)
    requires Shaped(db) && Layout(edges, 0) && Between(db, edges, j, number, root) && j < |edges|
    requires !IsRoot(edges[j]) && !IsDependency(edges[j])
    ensures Between(db, edges, j + 1, 1, None)
  {
    hide AllMet;
  }

  lemma SingleEdge(db: Database, edges: seq<Edge>, j: nat, number: nat, root: Option<Edge>)
    requires Shaped(db) && Layout(edges, 0) && Between(db, edges, j, number, root) && j < |edges|
    requires IsDependency(edges[j])
    ensures if Satisfied(db, edges[j]) then Between(db, edges, j + 1, 0, None) else !AllMet(db, Groups(edges, 0))
  {
    hide AllMet, Satisfied;
    AllMetFirst(db, [edges[j]], Groups(edges, j + 1));
    assert [edges[j]][0] == edges[j];
  }

  lemma RootEdge(db: Database, edges: seq<Edge>, j: nat, number: nat, root: Option<Edge>)
    requires Shaped(db) && Layout(edges, 0) && Between(db, edges, j, number, root) && j < |edges| && IsRoot(edges[j])
    ensures Within(db, edges, j + 1, edges[j].count, Some(edges[j]), j)
  {
    hide AllMet, Satisfied;
  }

  /** One of several alternatives: if it is satisfied the others are skipped, if it is the last and is not all is
      lost. */
  lemma Alternative(db: Database, edges: seq<Edge>, j: nat, number: nat, root: Option<Edge>, r: nat)
    requires Shaped(db) && Layout(edges, 0) && Within(db, edges, j, number, root, r)
    ensures if Satisfied(db, edges[j]) then Between(db, edges, j + number, 0, root)
            else if number == 1 then !AllMet(db, Groups(edges, 0))
            else Within(db, edges, j + 1, number - 1, root, r)
  {
    hide AllMet, Satisfied;
    var e := r + 1 + edges[r].count;
    var g := edges[r + 1..e];
    AllMetFirst(db, g, Groups(edges, e));
    if Satisfied(db, edges[j]) {
      assert g[j - r - 1] == edges[j];
    } else if number == 1 {
      forall m | 0 <= m < |g| ensures !Satisfied(db, g[m]) { assert g[m] == edges[r + 1 + m]; }
    }
  }

  lemma EndBetween(db: Database, edges: seq<Edge>, number: nat, root: Option<Edge>)
    requires Shaped(db) && Layout(edges, 0) && Between(db, edges, |edges|, number, root)
    ensures AllMet(db, Groups(edges, 0))
  {
  }

  /** Checking the edges of one package: whether it ends in an error. */
  method CheckEdges(db: Database, edges: seq<Edge>) returns (dies: bool)
    requires Usable(db) && Layout(edges, 0)
    ensures dies <==> !AllMet(db, Groups(edges, 0))
  {
    hide Reachable, StatusesFound, Between, Within, AllMet, Layout, Groups, Satisfied;
    var number: nat, root: Option<Edge> := 0, None;
    var j := 0;
    ghost var within, r := false, 0;
    StartBetween(db, edges);
    while j < |edges|
      invariant 0 <= j && if within then Within(db, edges, j, number, root, r) else Between(db, edges, j, number, root)
      decreases |edges| - j
    {
      var e := edges[j];
      if within {
        Alternative(db, edges, j, number, root, r);
        WithinEdge(db, edges, j, number, root, r);
      } else {
        BetweenNumber(db, edges, j, number, root);
      }
      if IsRoot(e) {
        RootEdge(db, edges, j, number, root);
        within, r := true, j;
        number := e.count;
        root := Some(e);
        j := j + 1;
        continue;
      }
      if number == 0 {
        number, root := 1, None;
      }
      if IsDependency(e) {
        if !within { SingleEdge(db, edges, j, number, root); }
        if root.Some? && e.kind != root.value.kind - 1 { assert false; }
        var ok := EdgeSatisfied(db, e);
        number := number - 1;
        if !ok && number == 0 { return true; }
        if ok {
          j := j + number;
          number, within := 0, false;
        }
      } else {
        OtherEdge(db, edges, j, number, root);
      }
      j := j + 1;
    }
    if within { WithinEnd(db, edges, j, number, root, r); } else { BetweenNumber(db, edges, j, number, root); }
    EndBetween(db, edges, number, root);
    return false;
  }

  lemma WithinEdge(db: Database, edges: seq<Edge>, j: nat, number: nat, root: Option<Edge>, r: nat)
    requires Shaped(db) && Layout(edges, 0) && Within(db, edges, j, number, root, r)
    ensures number >= 1 && root.Some? && edges[j].kind == root.value.kind - 1 && IsDependency(edges[j])
  {
  }

  lemma WithinEnd(db: Database, edges: seq<Edge>, j: nat, number: nat, root: Option<Edge>, r: nat)
    requires Shaped(db) && Layout(edges, 0) && Within(db, edges, j, number, root, r)
    ensures j < |edges|
  {
  }

  lemma BetweenNumber(db: Database, edges: seq<Edge>, j: nat, number: nat, root: Option<Edge>)
    requires Shaped(db) && Layout(edges, 0) && Between(db, edges, j, number, root)
    ensures j <= |edges| && (number == 0 || (number == 1 && root == None))
    ensures Between(db, edges, j, 1, None)
  {
  }

  // ---------- checking all packages ----------

  ghost predicate LaidOut(db: Database)
    requires Shaped(db)
  {
    forall i | 0 <= i < PACKAGE_HASH_PRIME && db.packages[i].Some? :: Layout(db.packages[i].value.edges, 0)
  }

  /** A package that is to be installed and has a dependency none of whose alternatives is satisfied. */
  ghost predicate Broken(db: Database, i: nat)
    requires Shaped(db) && LaidOut(db) && i < PACKAGE_HASH_PRIME
  {
    && db.packages[i].Some? && Ready(db, db.packages[i].value.name, EDGE_DEPENDS)
    && !AllMet(db, Groups(db.packages[i].value.edges, 0))
  }

  /** The dependency phase of check_deps: it dies if and only if some package to be installed is broken. */
  method CheckDependencies(db: Database) returns (dies: bool)
    requires Usable(db) && LaidOut(db)
    ensures dies <==> exists i | 0 <= i < PACKAGE_HASH_PRIME :: Broken(db, i)
  {
    hide Reachable, StatusesFound, Ready, AllMet, Groups;
    for i := 0 to PACKAGE_HASH_PRIME
      invariant forall k | 0 <= k < i :: !Broken(db, k)
    {
      if db.packages[i].None? { continue; }
      var wanted := PackageSatisfies(db, i, EDGE_DEPENDS);
      if !wanted { continue; }
      dies := CheckEdges(db, db.packages[i].value.edges);
      if dies {
        assert Broken(db, i);
        return;
      }
    }
    return false;
  }
}
