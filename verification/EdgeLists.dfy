/** How dpkg turns a line of dependencies into the edges of a package. */
module EdgeLists {
  import opened NameTable
  import opened Versions
  import opened Packages
  import opened Options

  const EDGE_PRE_DEPENDS := 1
  const EDGE_OR_PRE_DEPENDS := 2
  const EDGE_DEPENDS := 3
  const EDGE_OR_DEPENDS := 4
  const EDGE_PROVIDES := 7

  // ---------- words ----------

  /** strspn: where characters of the set, from i on, end. */
  function Span(s: CString, i: nat, chars: set<CChar>): (e: nat)
    requires i <= |s|
    ensures i <= e <= |s|
    decreases |s| - i
  {
    if i < |s| && s[i] in chars then Span(s, i + 1, chars) else i
  }

  /** strcspn: where the first character of the set is, from i on. */
  function SpanNot(s: CString, i: nat, chars: set<CChar>): (e: nat)
    requires i <= |s|
    ensures i <= e <= |s|
    decreases |s| - i
  {
    if i < |s| && s[i] !in chars then SpanNot(s, i + 1, chars) else i
  }

  const SPACE: CChar := ' ' as int
  const NEWLINE: CChar := 10

  // ---------- layout ----------

  predicate IsRoot(e: Edge)
  {
    e.kind == EDGE_OR_PRE_DEPENDS || e.kind == EDGE_OR_DEPENDS
  }

  predicate IsDependency(e: Edge)
  {
    e.kind == EDGE_PRE_DEPENDS || e.kind == EDGE_DEPENDS
  }

  /** The kind of all edges from i up to j. */
  predicate AllKind(edges: seq<Edge>, i: nat, j: nat, kind: nat)
  {
    i <= j <= |edges| && forall m | i <= m < j :: edges[m].kind == kind
  }

  /** From j on, each root is followed by exactly as many alternatives as it counts. */
  predicate Layout(edges: seq<Edge>, j: nat)
    requires j <= |edges|
    decreases |edges| - j
  {
    j == |edges| ||
    if IsRoot(edges[j]) then
      && edges[j].count >= 1
      && AllKind(edges, j + 1, j + 1 + edges[j].count, edges[j].kind - 1)
      && Layout(edges, j + 1 + edges[j].count)
    else Layout(edges, j + 1)
  }

  /** The dependencies from j on, each with its alternatives. */
  function Groups(edges: seq<Edge>, j: nat): seq<seq<Edge>>
    requires j <= |edges| && Layout(edges, j)
    decreases |edges| - j
  {
    if j == |edges| then []
    else if IsRoot(edges[j]) then
      [edges[j + 1..j + 1 + edges[j].count]] + Groups(edges, j + 1 + edges[j].count)
    else if IsDependency(edges[j]) then [[edges[j]]] + Groups(edges, j + 1)
    else Groups(edges, j + 1)
  }

  /** What comes in front does not matter. */
  lemma {:induction false} LayoutShift(pre: seq<Edge>, edges: seq<Edge>, j: nat)
    requires j <= |edges| && Layout(edges, j)
    ensures Layout(pre + edges, |pre| + j) && Groups(pre + edges, |pre| + j) == Groups(edges, j)
    decreases |edges| - j
  {
    var all := pre + edges;
    if j < |edges| {
      assert all[|pre| + j] == edges[j];
      if IsRoot(edges[j]) {
        var e := j + 1 + edges[j].count;
        LayoutShift(pre, edges, e);
        assert all[|pre| + j + 1..|pre| + e] == edges[j + 1..e];
      } else {
        LayoutShift(pre, edges, j + 1);
      }
    }
  }

  lemma Assoc<T>(a: seq<T>, b: seq<T>, c: seq<T>)
    ensures a + b + c == a + (b + c)
  {
  }

  /** Edges laid out one after the other have the dependencies of the first, then those of the second. */
  lemma {:induction false} LayoutJoin(edges: seq<Edge>, more: seq<Edge>, j: nat)
    requires j <= |edges| && Layout(edges, j) && Layout(more, 0)
    ensures Layout(edges + more, j) && Groups(edges + more, j) == Groups(edges, j) + Groups(more, 0)
    decreases |edges| - j
  {
    var all := edges + more;
    if j == |edges| {
      LayoutShift(edges, more, 0);
    } else {
      assert all[j] == edges[j];
      if IsRoot(edges[j]) {
        var e := j + 1 + edges[j].count;
        LayoutJoin(edges, more, e);
        assert all[j + 1..e] == edges[j + 1..e];
        Assoc([edges[j + 1..e]], Groups(edges, e), Groups(more, 0));
      } else {
        LayoutJoin(edges, more, j + 1);
        Assoc([[edges[j]]], Groups(edges, j + 1), Groups(more, 0));
      }
    }
  }

  // ---------- reading a line ----------

  /** strtok_r: the runs of other characters between separators, from i on. */
  function Tokens(s: CString, i: nat, separator: CChar): seq<CString>
    requires i <= |s|
    decreases |s| - i
  {
    var a := Span(s, i, {separator});
    var e := SpanNot(s, a, {separator});
    SpanMoves(s, a, separator);
    if a == |s| then [] else [s[a..e]] + Tokens(s, e, separator)
  }

  lemma SpanMoves(s: CString, a: nat, separator: CChar)
    requires a <= |s|
    ensures a < |s| && s[a] != separator ==> SpanNot(s, a, {separator}) > a
  {
  }

  const OPEN: CChar := '(' as int
  const CLOSE: CChar := ')' as int
  const COMMA: CChar := ',' as int
  const BAR: CChar := '|' as int
  const LESS: CChar := '<' as int
  const EQUALS: CChar := '=' as int
  const MORE: CChar := '>' as int

  /** strncmp with as many characters as the operator has. */
  predicate Begins(literal: CString, op: CString)
  {
    op <= literal
  }

  datatype OperatorText = Given(op: Operator) | Missing | Illegal

  function ReadOperator(op: CString): OperatorText
  {
    if op == [] then Missing
    else if Begins([EQUALS], op) then Given(VerEqual)
    else if Begins([LESS, LESS], op) then Given(VerLess)
    else if Begins([LESS, EQUALS], op) then Given(VerLessEqual)
    else if Begins([MORE, MORE], op) then Given(VerMore)
    else if Begins([MORE, EQUALS], op) then Given(VerMoreEqual)
    else Illegal
  }

  function Any(): CString
  {
    Chars("ANY")
  }

  /** The operator of an alternative: any version will do without a parenthesis. */
  function OperatorOf(text: CString): OperatorText
  {
    var a := Span(text, 0, {SPACE});
    var paren := SpanNot(text, a, {OPEN});
    if paren == |text| then Given(VerAny)
    else
      var o := Span(text, paren, {SPACE, OPEN});
      ReadOperator(text[o..Span(text, o, {LESS, EQUALS, MORE})])
  }

  function VersionOf(text: CString): CString
  {
    var a := Span(text, 0, {SPACE});
    var paren := SpanNot(text, a, {OPEN});
    if paren == |text| then Any()
    else
      var v := Span(text, Span(text, Span(text, paren, {SPACE, OPEN}), {LESS, EQUALS, MORE}), {SPACE});
      text[v..SpanNot(text, v, {SPACE, CLOSE})]
  }

  function NameOf(text: CString): CString
  {
    var a := Span(text, 0, {SPACE});
    text[a..SpanNot(text, a, {SPACE, OPEN})]
  }

  /** The edge of one alternative: a name and perhaps, in parentheses, an operator and a version. Where the parenthesis
      holds no operator the edge keeps the one that its memory held, which VerNull stands for if it is none at all. */
  function Alternative(text: CString, kind: nat, unset: Operator): (e: Edge)
    ensures e.kind == kind
  {
    var op := OperatorOf(text);
    Edge(kind, if op.Given? then op.op else unset, NameOf(text), VersionOf(text), 0)
  }

  /** The edges of several alternatives, in order. */
  function Alternatives(texts: seq<CString>, kind: nat, unset: seq<Operator>): (r: seq<Edge>)
    requires |unset| == |texts|
    ensures |r| == |texts| && AllKind(r, 0, |texts|, kind)
  {
    if texts == [] then []
    else
      var n := |texts| - 1;
      Alternatives(texts[..n], kind, unset[..n]) + [Alternative(texts[n], kind, unset[n])]
  }

  predicate Legal(texts: seq<CString>)
  {
    forall k | 0 <= k < |texts| :: OperatorOf(texts[k]) != Illegal
  }

  /** Without its leading spaces. */
  function Trimmed(field: CString): CString
  {
    field[Span(field, 0, {SPACE})..]
  }

  predicate NeedsRoot(field: CString, kind: nat)
    requires Tokens(field, 0, BAR) != []
  {
    (kind == EDGE_DEPENDS || kind == EDGE_PRE_DEPENDS) && field != Tokens(field, 0, BAR)[0]
  }

  function Root(field: CString, kind: nat, count: nat): Edge
  {
    Edge(kind + 1, VerNull, field, [], count)
  }

  /** The alternatives of a field between commas. */
  function Choices(field: CString): seq<CString>
  {
    Tokens(Trimmed(field), 0, BAR)
  }

  /** How reading a line goes on or ends: with edges, with an error message, or by dereferencing NULL. */
  datatype Outcome = Added(edges: seq<Edge>) | IllegalOperator | Crash

  /** One field: its alternatives, behind a root that counts them if there are several. */
  function FieldOutcome(field: CString, kind: nat, unset: seq<Operator>): Outcome
    requires |unset| == |Choices(field)|
  {
    var texts := Choices(field);
    if texts == [] then Crash
    else if !Legal(texts) then IllegalOperator
    else
      var alts := Alternatives(texts, kind, unset);
      Added(if NeedsRoot(Trimmed(field), kind) then [Root(Trimmed(field), kind, |alts|)] + alts else alts)
  }

  /** One operator for each alternative of each field. */
  predicate Fitting(fields: seq<CString>, unset: seq<seq<Operator>>)
  {
    |unset| == |fields| && forall i | 0 <= i < |fields| :: |unset[i]| == |Choices(fields[i])|
  }

  lemma FittingPrefix(fields: seq<CString>, unset: seq<seq<Operator>>)
    requires Fitting(fields, unset) && fields != []
    ensures |unset| == |fields| && Fitting(fields[..|fields| - 1], unset[..|fields| - 1])
    ensures |unset[|fields| - 1]| == |Choices(fields[|fields| - 1])|
  {
    hide Choices;
  }

  /** The fields in order, up to the first that ends it all. */
  function LineOutcome(fields: seq<CString>, kind: nat, unset: seq<seq<Operator>>): Outcome
    requires Fitting(fields, unset)
  {
    if fields == [] then Added([])
    else
      var n := |fields| - 1;
      FittingPrefix(fields, unset);
      var before := LineOutcome(fields[..n], kind, unset[..n]);
      if !before.Added? then before
      else
        var last := FieldOutcome(fields[n], kind, unset[n]);
        if last.Added? then Added(before.edges + last.edges) else last
  }

  /** The dependencies a line states: for each field its alternatives. */
  function LineGroups(fields: seq<CString>, kind: nat, unset: seq<seq<Operator>>): seq<seq<Edge>>
    requires Fitting(fields, unset)
  {
    if fields == [] then []
    else
      var n := |fields| - 1;
      FittingPrefix(fields, unset);
      LineGroups(fields[..n], kind, unset[..n]) + [Alternatives(Choices(fields[n]), kind, unset[n])]
  }

  // ---------- when it crashes, and when memory matters ----------

  /** Field i holds no name, and reading gets there. */
  predicate CrashesAt(fields: seq<CString>, i: nat)
    requires i < |fields|
  {
    Choices(fields[i]) == [] && forall k | 0 <= k < i :: Choices(fields[k]) != [] && Legal(Choices(fields[k]))
  }

  predicate AllWell(fields: seq<CString>)
  {
    forall k | 0 <= k < |fields| :: Choices(fields[k]) != [] && Legal(Choices(fields[k]))
  }

  /** NULL is dereferenced if and only if there is a field without any name, and no illegal operator before it. */
  lemma {:induction false} CrashIff(fields: seq<CString>, kind: nat, unset: seq<seq<Operator>>)
    requires Fitting(fields, unset)
    ensures LineOutcome(fields, kind, unset).Crash? <==> exists i: nat :: i < |fields| && CrashesAt(fields, i)
    ensures LineOutcome(fields, kind, unset).Added? <==> AllWell(fields)
  {
    hide Choices, Legal, Alternatives, NeedsRoot, Root;
    if fields != [] {
      var n := |fields| - 1;
      var front := fields[..n];
      FittingPrefix(fields, unset);
      CrashIff(front, kind, unset[..n]);
      assert forall k | 0 <= k < n :: front[k] == fields[k];
      if i: nat :| i < n && CrashesAt(front, i) { assert CrashesAt(fields, i); }
      if i: nat :| i < |fields| && CrashesAt(fields, i) {
        if i < n { assert CrashesAt(front, i); }
      }
      if AllWell(front) && Choices(fields[n]) == [] { assert CrashesAt(fields, n); }
    }
  }

  /** A line of nothing but a comma, and one with nothing but a space between two commas. */
  lemma NoNames(name: CString)
    requires name != [] && SPACE !in name && COMMA !in name && BAR !in name
    ensures Tokens([COMMA], 0, COMMA) == []
    ensures CrashesAt([name, [SPACE]], 1) || !Legal(Choices(name))
  {
    hide OperatorOf;
    assert Span([COMMA], 0, {COMMA}) == Span([COMMA], 1, {COMMA}) == 1;
    assert Span([SPACE], 0, {SPACE}) == Span([SPACE], 1, {SPACE}) == 1;
    assert Choices([SPACE]) == Tokens([], 0, BAR) == [];
    assert Span(name, 0, {SPACE}) == 0 && name[0..] == name;
    assert Span(name, 0, {BAR}) == 0;
    assert Choices(name) == [name[0..SpanNot(name, 0, {BAR})]] + Tokens(name, SpanNot(name, 0, {BAR}), BAR);
  }

  /** Every parenthesis of the line holds an operator. */
  predicate AllGiven(fields: seq<CString>)
  {
    forall i | 0 <= i < |fields| :: GivenIn(Choices(fields[i]))
  }

  predicate GivenIn(texts: seq<CString>)
  {
    forall k | 0 <= k < |texts| :: OperatorOf(texts[k]) != Missing
  }

  /** An alternative as in a (1). */
  lemma NoOperator()
    ensures OperatorOf(['a' as int, SPACE, OPEN, '1' as int, CLOSE]) == Missing
  {
    var s: CString := ['a' as int, SPACE, OPEN, '1' as int, CLOSE];
    assert Span(s, 0, {SPACE}) == 0;
    assert SpanNot(s, 0, {OPEN}) == SpanNot(s, 1, {OPEN}) == SpanNot(s, 2, {OPEN}) == 2;
    assert Span(s, 2, {SPACE, OPEN}) == Span(s, 3, {SPACE, OPEN}) == 3;
    assert Span(s, 3, {LESS, EQUALS, MORE}) == 3;
  }

  lemma {:induction false} GivenAlternatives(texts: seq<CString>, kind: nat, unset: seq<Operator>,
                                             unset': seq<Operator>)
    requires |unset| == |unset'| == |texts| && Legal(texts) && GivenIn(texts)
    ensures Alternatives(texts, kind, unset) == Alternatives(texts, kind, unset')
  {
    hide OperatorOf, NameOf, VersionOf;
    if texts != [] {
      var n := |texts| - 1;
      GivenAlternatives(texts[..n], kind, unset[..n], unset'[..n]);
    }
  }

  lemma {:induction false} GivenLine(fields: seq<CString>, kind: nat, unset: seq<seq<Operator>>,
                                     unset': seq<seq<Operator>>)
    requires Fitting(fields, unset) && Fitting(fields, unset') && AllGiven(fields)
    ensures LineOutcome(fields, kind, unset) == LineOutcome(fields, kind, unset')
  {
    hide Choices, Legal, GivenIn, Alternatives, NeedsRoot, Root;
    if fields != [] {
      var n := |fields| - 1;
      var front := fields[..n];
      FittingPrefix(fields, unset);
      FittingPrefix(fields, unset');
      assert AllGiven(front);
      GivenLine(front, kind, unset[..n], unset'[..n]);
      if Choices(fields[n]) != [] && Legal(Choices(fields[n])) {
        GivenAlternatives(Choices(fields[n]), kind, unset[n], unset'[n]);
      }
    }
  }

  /** The same operator in all the memory. */
  function Everywhere(fields: seq<CString>, op: Operator): (unset: seq<seq<Operator>>)
    ensures Fitting(fields, unset)
  {
    seq(|fields|, i requires 0 <= i < |fields| => seq(|Choices(fields[i])|, _ => op))
  }

  lemma {:induction false} SameSizes(fields: seq<CString>, kind: nat, unset: seq<seq<Operator>>,
                                     unset': seq<seq<Operator>>)
    requires Fitting(fields, unset) && Fitting(fields, unset') && AllWell(fields)
    ensures LineOutcome(fields, kind, unset).Added? && LineOutcome(fields, kind, unset').Added?
    ensures |LineOutcome(fields, kind, unset).edges| == |LineOutcome(fields, kind, unset').edges|
  {
    hide Choices, Legal, NeedsRoot, Root;
    if fields != [] {
      var n := |fields| - 1;
      FittingPrefix(fields, unset);
      FittingPrefix(fields, unset');
      assert AllWell(fields[..n]);
      SameSizes(fields[..n], kind, unset[..n], unset'[..n]);
    }
  }

  /** An alternative without an operator shows what its memory held. */
  lemma {:induction false} MissingShows(texts: seq<CString>, kind: nat, unset: seq<Operator>, k: nat)
    requires |unset| == |texts| && k < |texts| && OperatorOf(texts[k]) == Missing
    ensures Alternatives(texts, kind, unset)[k].op == unset[k]
  {
    hide OperatorOf, NameOf, VersionOf;
    if k < |texts| - 1 { MissingShows(texts[..|texts| - 1], kind, unset[..|texts| - 1], k); }
  }

  lemma MissingField(field: CString, kind: nat, unset: seq<Operator>, unset': seq<Operator>, k: nat) returns (m: nat)
    requires |unset| == |unset'| == |Choices(field)| && Legal(Choices(field))
    requires k < |Choices(field)| && OperatorOf(Choices(field)[k]) == Missing && unset[k] != unset'[k]
    ensures FieldOutcome(field, kind, unset).Added? && FieldOutcome(field, kind, unset').Added?
    ensures var a, b := FieldOutcome(field, kind, unset).edges, FieldOutcome(field, kind, unset').edges;
            m < |a| == |b| && a[m] != b[m]
  {
    hide Tokens, Trimmed, Legal, OperatorOf;
    MissingShows(Choices(field), kind, unset, k);
    MissingShows(Choices(field), kind, unset', k);
    m := if NeedsRoot(Trimmed(field), kind) then k + 1 else k;
  }

  lemma {:induction false} MissingLine(fields: seq<CString>, kind: nat, op: Operator, op': Operator, i: nat)
    requires AllWell(fields) && i < |fields| && !GivenIn(Choices(fields[i])) && op != op'
    ensures LineOutcome(fields, kind, Everywhere(fields, op)) != LineOutcome(fields, kind, Everywhere(fields, op'))
  {
    hide Choices, Legal, FieldOutcome, OperatorOf;
    var u, u', n := Everywhere(fields, op), Everywhere(fields, op'), |fields| - 1;
    var front := fields[..n];
    FittingPrefix(fields, u);
    FittingPrefix(fields, u');
    assert u[..n] == Everywhere(front, op) && u'[..n] == Everywhere(front, op');
    assert AllWell(front);
    SameSizes(front, kind, u[..n], u'[..n]);
    SameSizes(fields, kind, u, u');
    var a, b := LineOutcome(front, kind, u[..n]).edges, LineOutcome(front, kind, u'[..n]).edges;
    var c, d := LineOutcome(fields, kind, u).edges, LineOutcome(fields, kind, u').edges;
    if i < n {
      MissingLine(front, kind, op, op', i);
      assert c[..|a|] == a && d[..|b|] == b;
    } else {
      var k :| 0 <= k < |Choices(fields[n])| && OperatorOf(Choices(fields[n])[k]) == Missing;
      var m := MissingField(fields[n], kind, u[n], u'[n], k);
      assert c[|a| + m] != d[|b| + m];
    }
  }

  /** The edges of a line do not depend on what memory held if and only if every parenthesis holds an operator. */
  lemma DeterminedIff(fields: seq<CString>, kind: nat)
    requires AllWell(fields)
    ensures AllGiven(fields) <==>
            forall unset, unset' | Fitting(fields, unset) && Fitting(fields, unset') ::
              LineOutcome(fields, kind, unset) == LineOutcome(fields, kind, unset')
  {
    hide Choices, Legal, LineOutcome, Fitting, GivenIn, Everywhere;
    if AllGiven(fields) {
      forall unset, unset' | Fitting(fields, unset) && Fitting(fields, unset')
        ensures LineOutcome(fields, kind, unset) == LineOutcome(fields, kind, unset')
      {
        GivenLine(fields, kind, unset, unset');
      }
    } else {
      var i :| 0 <= i < |fields| && !GivenIn(Choices(fields[i]));
      MissingLine(fields, kind, VerLess, VerMore, i);
    }
  }

  // ---------- the layout of a line ----------

  /** A field that is its own first token has no other. */
  lemma OnlyToken(field: CString)
    requires Tokens(field, 0, BAR) != [] && Tokens(field, 0, BAR)[0] == field
    ensures |Tokens(field, 0, BAR)| == 1
  {
    hide Span, SpanNot;
    var a := Span(field, 0, {BAR});
    var e := SpanNot(field, a, {BAR});
    assert |field[a..e]| == e - a;
    assert a == 0 && e == |field|;
    assert Tokens(field, |field|, BAR) == [];
  }

  predicate LineKind(kind: nat)
  {
    kind % 2 == 1 && kind < 16
  }

  /** No root, no dependency: nothing to lay out. */
  lemma {:induction false} PlainLayout(edges: seq<Edge>, j: nat, kind: nat)
    requires j <= |edges| && AllKind(edges, 0, |edges|, kind) && LineKind(kind) && kind != EDGE_DEPENDS
    requires kind != EDGE_PRE_DEPENDS
    ensures Layout(edges, j) && Groups(edges, j) == []
    decreases |edges| - j
  {
    if j < |edges| { PlainLayout(edges, j + 1, kind); }
  }

  lemma FieldLayout(field: CString, kind: nat, unset: seq<Operator>)
    requires |unset| == |Choices(field)| && FieldOutcome(field, kind, unset).Added? && LineKind(kind)
    ensures var edges := FieldOutcome(field, kind, unset).edges;
            && Layout(edges, 0)
            && Groups(edges, 0) == if kind == EDGE_DEPENDS || kind == EDGE_PRE_DEPENDS
                                   then [Alternatives(Choices(field), kind, unset)] else []
  {
    hide Tokens, Alternatives, Trimmed, Legal;
    var edges, alts := FieldOutcome(field, kind, unset).edges, Alternatives(Choices(field), kind, unset);
    if NeedsRoot(Trimmed(field), kind) {
      assert edges[1..1 + |alts|] == alts;
      assert Layout(edges, 1 + |alts|);
    } else if kind == EDGE_DEPENDS || kind == EDGE_PRE_DEPENDS {
      OnlyToken(Trimmed(field));
      assert edges == alts == [alts[0]];
      assert Layout(edges, 1);
    } else {
      PlainLayout(edges, 0, kind);
    }
  }

  /** A line of Depends or Pre-Depends adds one dependency per field, any other line none; the layout is kept. */
  lemma {:induction false} LineLayout(edges: seq<Edge>, fields: seq<CString>, kind: nat, unset: seq<seq<Operator>>)
    requires Fitting(fields, unset) && LineOutcome(fields, kind, unset).Added? && LineKind(kind) && Layout(edges, 0)
    ensures var all := edges + LineOutcome(fields, kind, unset).edges;
            && Layout(all, 0)
            && Groups(all, 0) == Groups(edges, 0) + if kind == EDGE_DEPENDS || kind == EDGE_PRE_DEPENDS
                                                    then LineGroups(fields, kind, unset) else []
  {
    hide Layout, Groups, FieldOutcome, Choices, Alternatives, Fitting;
    if fields == [] {
      assert edges + [] == edges;
    } else {
      var n := |fields| - 1;
      FittingPrefix(fields, unset);
      LineLayout(edges, fields[..n], kind, unset[..n]);
      FieldLayout(fields[n], kind, unset[n]);
      var r, e := LineOutcome(fields[..n], kind, unset[..n]).edges, FieldOutcome(fields[n], kind, unset[n]).edges;
      LayoutJoin(edges + r, e, 0);
      Assoc(edges, r, e);
      Assoc(Groups(edges, 0), LineGroups(fields[..n], kind, unset[..n]),
            [Alternatives(Choices(fields[n]), kind, unset[n])]);
    }
  }

  // ---------- adding the edges ----------

  class Node {
    var edges: seq<Edge>

    /** add_edge_to_node. */
    method AddEdge(e: Edge)
      modifies this
      ensures edges == old(edges) + [e]
    {
      edges := edges + [e];
    }

    /** The alternatives of a field, behind its root if it has one, which counts them. */
    method AddChoices(texts: seq<CString>, kind: nat, root: Option<Edge>)
      returns (legal: bool, ghost unset: seq<Operator>)
      requires root.Some? ==> root.value.count == 0
      modifies this
      ensures legal == Legal(texts)
      ensures legal ==> |unset| == |texts|
                        && edges == old(edges) + (if root.Some? then [root.value.(count := |texts|)] else [])
                                                       + Alternatives(texts, kind, unset)
    {
      hide Alternative, OperatorOf, AllKind;
      var rootAt: int := -1;
      if root.Some? {
        rootAt := |edges|;
        AddEdge(root.value);
      }
      ghost var base := old(edges);
      unset := [];
      for k := 0 to |texts|
        invariant rootAt == if root.Some? then |base| else -1
        invariant |unset| == k && Legal(texts[..k])
        invariant edges == base + (if root.Some? then [root.value.(count := k)] else [])
                  + Alternatives(texts[..k], kind, unset)
      {
        assert texts[..k + 1][..k] == texts[..k] && texts[..k + 1][k] == texts[k];
        if OperatorOf(texts[k]) == Illegal { return false, unset; }
        if rootAt >= 0 { edges := edges[rootAt := edges[rootAt].(count := edges[rootAt].count + 1)]; }
        var held: Operator := *;
        AddEdge(Alternative(texts[k], kind, held));
        assert (unset + [held])[..k] == unset;
        unset := unset + [held];
      }
      assert texts[..|texts|] == texts;
      return true, unset;
    }

    /** One field: the root first, counting up as the alternatives are added behind it. */
    method AddField(field: CString, kind: nat) returns (r: Outcome, ghost unset: seq<Operator>)
      modifies this
      ensures |unset| == |Choices(field)| && r == FieldOutcome(field, kind, unset)
      ensures r.Added? ==> edges == old(edges) + r.edges
    {
      hide Tokens, Alternatives, Trimmed, Legal;
      var texts := Choices(field);
      unset := seq(|texts|, _ => VerNull);
      if texts == [] { return Crash, unset; }
      var root := if NeedsRoot(Trimmed(field), kind) then Some(Root(Trimmed(field), kind, 0)) else None;
      var legal;
      ghost var held;
      var before := |edges|;
      legal, held := AddChoices(texts, kind, root);
      if !legal { return IllegalOperator, unset; }
      assert edges[..before] == old(edges);
      unset := held;
      r := Added(edges[before..]);
      ghost var alts := Alternatives(texts, kind, held);
      assert edges[before..] == (if root.Some? then [root.value.(count := |texts|)] else []) + alts;
    }

    /** add_split_dependencies, with what the memory of the edges happened to hold: the fields between commas in
        order. Without any field there is nothing but NULL. */
    method AddSplitDependencies(line: CString, kind: nat) returns (r: Outcome, ghost unset: seq<seq<Operator>>)
      modifies this
      ensures Tokens(line, 0, COMMA) == [] ==> r.Crash?
      ensures Tokens(line, 0, COMMA) != [] ==>
                Fitting(Tokens(line, 0, COMMA), unset) && r == LineOutcome(Tokens(line, 0, COMMA), kind, unset)
      ensures r.Added? ==> edges == old(edges) + r.edges
      ensures r.Crash? <==> Tokens(line, 0, COMMA) == []
                            || exists i: nat :: i < |Tokens(line, 0, COMMA)| && CrashesAt(Tokens(line, 0, COMMA), i)
    {
      hide Tokens, FieldOutcome, Choices, CrashesAt, AllWell;
      var fields := Tokens(line, 0, COMMA);
      unset := [];
      if fields == [] { return Crash, unset; }
      r := Added([]);
      for i := 0 to |fields|
        invariant Fitting(fields[..i], unset) && r == LineOutcome(fields[..i], kind, unset)
        invariant r.Added? && edges == old(edges) + r.edges
      {
        assert fields[..i + 1][..i] == fields[..i] && fields[..i + 1][i] == fields[i];
        var one;
        ghost var held;
        one, held := AddField(fields[i], kind);
        assert (unset + [held])[..i] == unset;
        if !one.Added? {
          unset := unset + [held];
          LineOver(fields, kind, unset, i + 1);
          unset := Padded(fields, unset);
          CrashIff(fields, kind, unset);
          return one, unset;
        }
        unset := unset + [held];
        assert old(edges) + r.edges + one.edges == old(edges) + (r.edges + one.edges);
        r := Added(r.edges + one.edges);
      }
      assert fields[..|fields|] == fields;
      CrashIff(fields, kind, unset);
    }
  }

  /** Some operators for the fields that are not read any more. */
  ghost function Padded(fields: seq<CString>, unset: seq<seq<Operator>>): (p: seq<seq<Operator>>)
    requires |unset| <= |fields| && Fitting(fields[..|unset|], unset)
    ensures Fitting(fields, p) && unset <= p
  {
    unset + Everywhere(fields, VerNull)[|unset|..]
  }

  /** What ends the line ends it whatever follows. */
  lemma {:induction false} LineOver(fields: seq<CString>, kind: nat, unset: seq<seq<Operator>>, n: nat)
    requires |unset| == n <= |fields| && Fitting(fields[..n], unset) && !LineOutcome(fields[..n], kind, unset).Added?
    ensures LineOutcome(fields, kind, Padded(fields, unset)) == LineOutcome(fields[..n], kind, unset)
    decreases |fields|
  {
    hide FieldOutcome, Choices;
    var p := Padded(fields, unset);
    if n == |fields| {
      assert fields[..n] == fields && p == unset;
    } else {
      var front := fields[..|fields| - 1];
      assert front[..n] == fields[..n];
      LineOver(front, kind, unset, n);
      assert p[..|front|] == Padded(front, unset);
    }
  }
}
