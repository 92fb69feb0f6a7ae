/** Statuses and dependencies as they are written, and what the check makes of them. */
module StatusWords {
  import opened Probing
  import opened NameTable
  import opened Versions
  import opened Packages
  import opened EdgeLists
  import opened EdgeTexts
  import opened Dependencies
  import opened StatusFile
  import opened Options

  // ---------- the words of a status ----------

  predicate IsWord(w: CString)
  {
    w != [] && NoneIn(w, {SPACE, NEWLINE})
  }

  /** What may follow a word. */
  predicate Follows(t: CString)
  {
    t == [] || t[0] in {SPACE, NEWLINE}
  }

  lemma WordHere(x: CString, a: CString, t: CString)
    requires IsWord(a) && Follows(t)
    ensures Word(x + a + t, |x|, 1) == a
  {
    hide SpanNot;
    SpanNotRun(x, a, t, {SPACE, NEWLINE});
    assert (x + a + t)[|x|..|x + a|] == a;
  }

  /** From one word on to the next. */
  lemma WordNext(x: CString, a: CString, gap: CString, t: CString, num: nat)
    requires IsWord(a) && gap != [] && AllIn(gap, {SPACE}) && EndsRun(t, {SPACE}) && num > 1
    ensures Word(x + a + gap + t, |x|, num) == Word(x + a + gap + t, |x + a + gap|, num - 1)
  {
    hide Span, SpanNot;
    assert NoneIn(a, {SPACE});
    assert x + a + gap + t == x + a + (gap + t);
    SpanNotRun(x, a, gap + t, {SPACE});
    SpanRun(x + a, gap, t, {SPACE});
  }

  /** Three words with spaces between them are the first, the second and the third, whatever follows. */
  lemma WordsRead(a: CString, p: CString, b: CString, q: CString, c: CString, t: CString)
    requires IsWord(a) && IsWord(b) && IsWord(c) && Follows(t)
    requires p != [] && q != [] && AllIn(p, {SPACE}) && AllIn(q, {SPACE})
    ensures var s := a + p + b + q + c + t;
            Word(s, 0, 1) == a && Word(s, 0, 2) == b && Word(s, 0, 3) == c
  {
    hide Word, AllIn, IsWord;
    var x := a + p;
    var y := x + b + q;
    var s := y + c + t;
    WordEnds(b, q + c + t);
    WordEnds(c, t);
    Split(a, p, b + (q + c + t));
    Split(x, b, q + c + t);
    Split(x + b, q, c + t);
    Split(y, c, t);
    assert s == a + p + (b + (q + c + t)) == x + b + (q + c + t) == x + b + q + (c + t);
    GapFollows(p, b + (q + c + t));
    GapFollows(q, c + t);
    assert s == [] + a + (p + (b + (q + c + t))) && q + c + t == q + (c + t);
    WordHere([], a, p + (b + (q + c + t)));
    WordNext([], a, p, b + (q + c + t), 2);
    WordNext([], a, p, b + (q + c + t), 3);
    assert [] + a + p == x;
    WordHere(x, b, q + c + t);
    WordNext(x, b, q, c + t, 2);
    WordHere(y, c, t);
  }

  lemma Split(x: CString, a: CString, t: CString)
    ensures x + a + t == x + (a + t)
  {
  }

  lemma WordEnds(w: CString, t: CString)
    requires IsWord(w)
    ensures EndsRun(w + t, {SPACE})
  {
    assert (w + t)[0] == w[0];
  }

  lemma GapFollows(gap: CString, t: CString)
    requires gap != [] && AllIn(gap, {SPACE})
    ensures Follows(gap + t)
  {
    assert (gap + t)[0] == gap[0];
  }

  /** A status: what is wanted, a flag and what is the case. */
  datatype State = State(want: CString, flag: CString, state: CString)

  predicate WellStated(s: State)
  {
    IsWord(s.want) && IsWord(s.flag) && IsWord(s.state)
  }

  function StateText(s: State): CString
  {
    s.want + [SPACE] + s.flag + [SPACE] + s.state
  }

  /** A pre-dependency asks for what is installed, a dependency for what is to be. */
  predicate Suits(s: State, kind: nat)
  {
    (kind == EDGE_PRE_DEPENDS && s.state == Chars("installed")) || (kind == EDGE_DEPENDS && s.want == Chars("install"))
  }

  lemma FitsWritten(package: nat, s: State, kind: nat)
    requires WellStated(s)
    ensures Fits(Status(package, StateText(s)), kind) <==> Suits(s, kind)
  {
    hide Word, Chars, IsWord;
    WordsRead(s.want, [SPACE], s.flag, [SPACE], s.state, []);
    assert StateText(s) + [] == StateText(s);
  }

  // ---------- a file of written statuses ----------

  datatype Paragraph = Paragraph(p: Package, s: State)

  function EntriesOf(ps: seq<Paragraph>): (es: seq<Entry>)
    ensures |es| == |ps| && forall i | 0 <= i < |ps| :: es[i] == Entry(ps[i].p, StateText(ps[i].s))
  {
    seq(|ps|, i requires 0 <= i < |ps| => Entry(ps[i].p, StateText(ps[i].s)))
  }

  /** Paragraph i is the last for its name. */
  ghost predicate LastOf(ps: seq<Paragraph>, i: nat, name: CString)
  {
    i < |ps| && ps[i].p.name == name && forall k | i < k < |ps| :: ps[k].p.name != name
  }

  lemma {:induction false} LastTextIs(ps: seq<Paragraph>, name: CString)
    ensures LastText(EntriesOf(ps), name).Some? ==>
              exists i: nat :: LastOf(ps, i, name) && LastText(EntriesOf(ps), name) == Some(StateText(ps[i].s))
    ensures LastText(EntriesOf(ps), name).None? ==> forall i: nat :: !LastOf(ps, i, name)
  {
    hide StateText;
    if ps != [] {
      var n := |ps| - 1;
      assert EntriesOf(ps)[..n] == EntriesOf(ps[..n]);
      if ps[n].p.name == name {
        assert LastOf(ps, n, name);
      } else {
        LastTextIs(ps[..n], name);
        forall i: nat
          ensures LastOf(ps, i, name) == LastOf(ps[..n], i, name)
        {
          LastOfShorter(ps, i, name);
        }
      }
    }
  }

  lemma LastOfShorter(ps: seq<Paragraph>, i: nat, name: CString)
    requires ps != [] && ps[|ps| - 1].p.name != name
    ensures LastOf(ps, i, name) == LastOf(ps[..|ps| - 1], i, name)
  {
    var front := ps[..|ps| - 1];
    if LastOf(front, i, name) {
      forall k | i < k < |ps|
        ensures ps[k].p.name != name
      {
        if k < |front| { assert front[k].p.name != name; }
      }
    }
  }

  lemma LastOfOne(ps: seq<Paragraph>, i: nat, j: nat, name: CString)
    requires LastOf(ps, i, name) && LastOf(ps, j, name)
    ensures i == j
  {
  }

  /** The last paragraph for the package says what the kind of dependency asks for. */
  ghost predicate ReadyWith(ps: seq<Paragraph>, name: CString, kind: nat)
  {
    exists i: nat :: LastOf(ps, i, name) && Suits(ps[i].s, kind)
  }

  /** In a file of written statuses a package is ready as its last paragraph says: for a pre-dependency if that says
      installed, for a dependency if it says install. */
  lemma ReadyWritten(ps: seq<Paragraph>, name: CString, kind: nat)
    requires forall i | 0 <= i < |ps| :: WellStated(ps[i].s)
    ensures ReadyIn(EntriesOf(ps), name, kind) <==> ReadyWith(ps, name, kind)
  {
    hide LastText, Fits, Suits, WellStated, StateText;
    LastTextIs(ps, name);
    if LastText(EntriesOf(ps), name).Some? {
      var i: nat :| LastOf(ps, i, name) && LastText(EntriesOf(ps), name) == Some(StateText(ps[i].s));
      FitsWritten(0, ps[i].s, kind);
      forall j: nat | LastOf(ps, j, name)
        ensures j == i
      {
        LastOfOne(ps, i, j, name);
      }
    }
  }

  /** A package of the file satisfies the edge, by its name and version or as a provider. */
  ghost predicate SatisfiesWith(ps: seq<Paragraph>, e: Edge, q: Package)
  {
    && Latest(EntriesOf(ps), q) && (Matches(q, e.name, e.version, e.op) || Provides(q, e.name))
    && ReadyWith(ps, q.name, e.kind)
  }

  ghost predicate MetWith(ps: seq<Paragraph>, g: seq<Edge>)
  {
    exists m, q: Package | 0 <= m < |g| :: SatisfiesWith(ps, g[m], q)
  }

  /** A package whose last paragraph says install has a dependency none of whose alternatives is satisfied. */
  ghost predicate BrokenWith(ps: seq<Paragraph>, q: Package)
    requires Layout(q.edges, 0)
  {
    && Latest(EntriesOf(ps), q) && ReadyWith(ps, q.name, EDGE_DEPENDS)
    && exists g | 0 <= g < |Groups(q.edges, 0)| :: !MetWith(ps, Groups(q.edges, 0)[g])
  }

  lemma MetWritten(ps: seq<Paragraph>, g: seq<Edge>)
    requires forall i | 0 <= i < |ps| :: WellStated(ps[i].s)
    ensures MetIn(EntriesOf(ps), g) <==> MetWith(ps, g)
  {
    hide Latest, Matches, Provides, ReadyIn, ReadyWith, WellStated, EntriesOf;
    forall m, q: Package | 0 <= m < |g|
      ensures SatisfiesIn(EntriesOf(ps), g[m], q) <==> SatisfiesWith(ps, g[m], q)
    {
      ReadyWritten(ps, q.name, g[m].kind);
    }
    if m :| 0 <= m < |g| && SatisfiedIn(EntriesOf(ps), g[m]) {
      var q: Package :| SatisfiesIn(EntriesOf(ps), g[m], q);
      assert SatisfiesWith(ps, g[m], q);
    }
    if m, q: Package :| 0 <= m < |g| && SatisfiesWith(ps, g[m], q) {
      assert SatisfiesIn(EntriesOf(ps), g[m], q);
      assert SatisfiedIn(EntriesOf(ps), g[m]);
    }
  }

  lemma BrokenWritten(ps: seq<Paragraph>, q: Package)
    requires Layout(q.edges, 0) && forall i | 0 <= i < |ps| :: WellStated(ps[i].s)
    ensures BrokenIn(EntriesOf(ps), q) <==> BrokenWith(ps, q)
  {
    hide Latest, Layout, Groups, MetIn, MetWith, ReadyIn, ReadyWith, WellStated, EntriesOf;
    ReadyWritten(ps, q.name, EDGE_DEPENDS);
    forall g | 0 <= g < |Groups(q.edges, 0)|
      ensures MetIn(EntriesOf(ps), Groups(q.edges, 0)[g]) <==> MetWith(ps, Groups(q.edges, 0)[g])
    {
      MetWritten(ps, Groups(q.edges, 0)[g]);
    }
  }

  /** Reading a file of written statuses and checking: it ends in an error if and only if some package whose last status
      says install has a dependency none of whose alternatives is satisfied, where a dependency asks for a package that
      says install and a pre-dependency for one that says installed. */
  method CheckWritten(ps: seq<Paragraph>) returns (dies: bool)
    requires |ps| < STATUS_HASH_PRIME
    requires forall i | 0 <= i < |ps| :: WellStated(ps[i].s) && Layout(ps[i].p.edges, 0)
    ensures dies <==> exists i | 0 <= i < |ps| :: BrokenWith(ps, ps[i].p)
  {
    hide BrokenIn, BrokenWith, WellStated, Layout, StateText;
    dies := CheckFile(EntriesOf(ps));
    forall i | 0 <= i < |ps|
      ensures BrokenIn(EntriesOf(ps), EntriesOf(ps)[i].p) <==> BrokenWith(ps, ps[i].p)
    {
      BrokenWritten(ps, ps[i].p);
    }
  }

  // ---------- packages whose dependencies are written ----------

  /** The edges of a package with these lines. */
  function PackageEdges(pre: seq<Field>, depends: seq<Field>, provided: seq<Field>): seq<Edge>
    requires forall i | 0 <= i < |pre| :: WellFormed(pre[i])
    requires forall i | 0 <= i < |depends| :: WellFormed(depends[i])
    requires forall i | 0 <= i < |provided| :: WellFormed(provided[i])
  {
    LineEdges(pre, EDGE_PRE_DEPENDS) + LineEdges(depends, EDGE_DEPENDS) + LineEdges(provided, EDGE_PROVIDES)
  }

  lemma LineAdded(edges: seq<Edge>, fs: seq<Field>, kind: nat)
    requires Layout(edges, 0) && LineKind(kind) && forall i | 0 <= i < |fs| :: WellFormed(fs[i])
    ensures Layout(edges + LineEdges(fs, kind), 0)
    ensures Groups(edges + LineEdges(fs, kind), 0) ==
            Groups(edges, 0) + if kind == EDGE_DEPENDS || kind == EDGE_PRE_DEPENDS then WrittenGroups(fs, kind) else []
  {
    hide Layout, Groups, WellFormed, EdgeTexts.LineEdges, WrittenGroups, LineOutcome, LineGroups;
    var fields := FieldTexts(fs);
    var unset := Everywhere(fields, VerNull);
    FieldsRead(fs, kind, unset);
    LineLayout(edges, fields, kind, unset);
  }

  /** The dependencies that the check asks about are the written ones, field by field. */
  lemma PackageWritten(pre: seq<Field>, depends: seq<Field>, provided: seq<Field>)
    requires forall i | 0 <= i < |pre| :: WellFormed(pre[i])
    requires forall i | 0 <= i < |depends| :: WellFormed(depends[i])
    requires forall i | 0 <= i < |provided| :: WellFormed(provided[i])
    ensures var edges := PackageEdges(pre, depends, provided);
            && Layout(edges, 0)
            && Groups(edges, 0) == WrittenGroups(pre, EDGE_PRE_DEPENDS) + WrittenGroups(depends, EDGE_DEPENDS)
  {
    hide Groups, WellFormed, EdgeTexts.LineEdges, WrittenGroups;
    var a, b := LineEdges(pre, EDGE_PRE_DEPENDS), LineEdges(depends, EDGE_DEPENDS);
    NoEdges();
    LineAdded([], pre, EDGE_PRE_DEPENDS);
    assert [] + a == a;
    LineAdded(a, depends, EDGE_DEPENDS);
    LineAdded(a + b, provided, EDGE_PROVIDES);
  }

  lemma NoEdges()
    ensures Layout([], 0) && Groups([], 0) == []
  {
  }
}
