/** Dependencies as they are written, and the edges that dpkg reads from them. */
module EdgeTexts {
  import opened NameTable
  import opened Versions
  import opened Packages
  import opened EdgeLists

  // ---------- operators ----------

  predicate IsRelation(op: Operator)
  {
    op != VerNull && op != VerAny
  }

  /** How the five relations are written. */
  function RelationText(op: Operator): CString
    requires IsRelation(op)
  {
    match op
    case VerEqual => [EQUALS]
    case VerLess => [LESS, LESS]
    case VerLessEqual => [LESS, EQUALS]
    case VerMore => [MORE, MORE]
    case VerMoreEqual => [MORE, EQUALS]
  }

  /** What is read as an operator: the five relations, one character for the strict ones, nothing, or it is illegal. */
  lemma OperatorsRead(t: CString)
    ensures ReadOperator(t) ==
            if t == [] then Missing
            else if t == [EQUALS] then Given(VerEqual)
            else if t == [LESS] || t == [LESS, LESS] then Given(VerLess)
            else if t == [LESS, EQUALS] then Given(VerLessEqual)
            else if t == [MORE] || t == [MORE, MORE] then Given(VerMore)
            else if t == [MORE, EQUALS] then Given(VerMoreEqual)
            else Illegal
  {
    if |t| == 1 {
      assert t == [t[0]];
    } else if |t| == 2 {
      assert t == [t[0], t[1]];
    }
  }

  // ---------- runs of characters ----------

  predicate AllIn(s: CString, chars: set<CChar>)
  {
    forall k | 0 <= k < |s| :: s[k] in chars
  }

  predicate NoneIn(s: CString, chars: set<CChar>)
  {
    forall k | 0 <= k < |s| :: s[k] !in chars
  }

  /** What a run meets at its end. */
  predicate EndsRun(s: CString, chars: set<CChar>)
  {
    s == [] || s[0] !in chars
  }

  lemma {:induction false} SpanRun(x: CString, run: CString, rest: CString, chars: set<CChar>)
    requires AllIn(run, chars) && EndsRun(rest, chars)
    ensures Span(x + run + rest, |x|, chars) == |x + run|
    decreases |run|
  {
    var s := x + run + rest;
    if run != [] {
      SpanRun(x + [run[0]], run[1..], rest, chars);
      assert x + [run[0]] + run[1..] + rest == s;
      assert x + [run[0]] + run[1..] == x + run;
    }
  }

  lemma {:induction false} SpanNotRun(x: CString, run: CString, rest: CString, chars: set<CChar>)
    requires NoneIn(run, chars) && (rest == [] || rest[0] in chars)
    ensures SpanNot(x + run + rest, |x|, chars) == |x + run|
    decreases |run|
  {
    var s := x + run + rest;
    if run != [] {
      SpanNotRun(x + [run[0]], run[1..], rest, chars);
      assert x + [run[0]] + run[1..] + rest == s;
      assert x + [run[0]] + run[1..] == x + run;
    }
  }

  // ---------- one alternative ----------

  function Spaces(n: nat): (s: CString)
    ensures |s| == n && AllIn(s, {SPACE})
  {
    seq(n, _ => SPACE)
  }

  predicate IsName(name: CString)
  {
    name != [] && NoneIn(name, {SPACE, OPEN, CLOSE, BAR, COMMA})
  }

  predicate IsVersion(version: CString)
  {
    version != [] && NoneIn(version, {SPACE, OPEN, CLOSE, LESS, EQUALS, MORE, BAR, COMMA})
  }

  /** A name alone, spaces around it. */
  lemma PlainRead(p: nat, name: CString, q: nat, kind: nat, unset: Operator)
    requires IsName(name)
    ensures Alternative(Spaces(p) + name + Spaces(q), kind, unset) == Edge(kind, VerAny, name, Any(), 0)
    ensures OperatorOf(Spaces(p) + name + Spaces(q)) == Given(VerAny)
  {
    hide Span, SpanNot;
    var text, tail := Spaces(p) + name + Spaces(q), name + Spaces(q);
    assert text == [] + Spaces(p) + tail;
    SpanRun([], Spaces(p), tail, {SPACE});
    SpanNotRun(Spaces(p), name, Spaces(q), {SPACE, OPEN});
    assert NoneIn(tail, {OPEN});
    SpanNotRun(Spaces(p), tail, [], {OPEN});
    assert Spaces(p) + tail + [] == text && Spaces(p) + tail == text;
    assert text[p..p + |name|] == name;
  }

  /** The name in front of a parenthesis. */
  lemma NameRead(p: nat, name: CString, q: nat, t: CString)
    requires IsName(name) && t != [] && t[0] == OPEN
    ensures var text := Spaces(p) + name + Spaces(q) + t;
            && Span(text, 0, {SPACE}) == p && NameOf(text) == name
            && SpanNot(text, p, {OPEN}) == p + |name| + q < |text|
  {
    hide Span, SpanNot;
    var text, x, y := Spaces(p) + name + Spaces(q) + t, Spaces(p), name + Spaces(q);
    assert text == [] + x + (y + t);
    SpanRun([], x, y + t, {SPACE});
    assert text == x + name + (Spaces(q) + t);
    SpanNotRun(x, name, Spaces(q) + t, {SPACE, OPEN});
    assert text == x + y + t && NoneIn(y, {OPEN});
    SpanNotRun(x, y, t, {OPEN});
    assert text[p..p + |name|] == name;
  }

  lemma OpenRead(x: CString, r: nat, t: CString)
    requires EndsRun(t, {SPACE, OPEN})
    ensures Span(x + ([OPEN] + Spaces(r)) + t, |x|, {SPACE, OPEN}) == |x| + 1 + r
  {
    SpanRun(x, [OPEN] + Spaces(r), t, {SPACE, OPEN});
  }

  lemma RelationAt(y: CString, op: CString, t: CString)
    requires AllIn(op, {LESS, EQUALS, MORE}) && EndsRun(t, {LESS, EQUALS, MORE})
    ensures var e := |y + op|;
            Span(y + op + t, |y|, {LESS, EQUALS, MORE}) == e && (y + op + t)[|y|..e] == op
  {
    SpanRun(y, op, t, {LESS, EQUALS, MORE});
    Slice(y, op, t);
  }

  lemma VersionAt(z: CString, gap: CString, version: CString, t: CString)
    requires AllIn(gap, {SPACE}) && IsVersion(version) && t != [] && t[0] in {SPACE, CLOSE}
    ensures var text, v := z + gap + version + t, |z + gap|;
            && Span(text, |z|, {SPACE}) == v && SpanNot(text, v, {SPACE, CLOSE}) == v + |version|
            && text[v..v + |version|] == version
  {
    hide Span, SpanNot, AllIn;
    var x := z + gap;
    SpanNotRun(x, version, t, {SPACE, CLOSE});
    Slice(x, version, t);
    assert (version + t)[0] == version[0];
    SpanRun(z, gap, version + t, {SPACE});
    Regroup(z, gap, version, t);
  }

  /** An operator and a version behind y. */
  lemma InsideRead(y: CString, op: CString, gap: CString, version: CString, t: CString)
    requires op != [] && AllIn(op, {LESS, EQUALS, MORE}) && AllIn(gap, {SPACE})
    requires IsVersion(version) && t != [] && t[0] in {SPACE, CLOSE}
    ensures var text := y + op + (gap + version + t);
            var e, v := |y + op|, |y + op + gap|;
            && Span(text, |y|, {LESS, EQUALS, MORE}) == e && text[|y|..e] == op && Span(text, e, {SPACE}) == v
            && SpanNot(text, v, {SPACE, CLOSE}) == v + |version| && text[v..v + |version|] == version
  {
    hide Span, SpanNot, AllIn, IsVersion;
    var z := y + op;
    VersionAt(z, gap, version, t);
    VersionEnds(gap, version, t);
    RelationAt(y, op, gap + version + t);
    Regroup(z, gap, version, t);
  }

  lemma VersionEnds(gap: CString, version: CString, t: CString)
    requires IsVersion(version) && AllIn(gap, {SPACE})
    ensures EndsRun(gap + version + t, {LESS, EQUALS, MORE})
  {
    assert (gap + version + t)[0] == if gap != [] then gap[0] else version[0];
  }

  lemma Regroup(x: CString, a: CString, b: CString, c: CString)
    ensures x + a + b + c == x + a + (b + c) == x + (a + b + c)
  {
  }

  lemma Slice(x: CString, a: CString, t: CString)
    ensures (x + a + t)[|x|..|x| + |a|] == a
  {
  }

  /** The text of an alternative with a version: spaces p before the name and q behind it, r before the operator and u
      behind it, v behind the version, and whatever follows the parenthesis. */
  function VersionedText(p: nat, name: CString, q: nat, r: nat, op: CString, u: nat, version: CString, v: nat,
                         end: CString)
    : CString
  {
    Spaces(p) + name + Spaces(q) + ([OPEN] + Spaces(r) + (op + (Spaces(u) + version + (Spaces(v) + [CLOSE] + end))))
  }

  /** A name, an operator and a version are read as these, however they are spaced. */
  lemma VersionedRead(p: nat, name: CString, q: nat, r: nat, op: CString, u: nat, version: CString, v: nat,
                      end: CString)
    requires IsName(name) && op != [] && AllIn(op, {LESS, EQUALS, MORE}) && IsVersion(version)
    ensures var text := VersionedText(p, name, q, r, op, u, version, v, end);
            && OperatorOf(text) == ReadOperator(op) && NameOf(text) == name && VersionOf(text) == version
  {
    hide Span, SpanNot, ReadOperator, NameOf, IsName, IsVersion, Spaces;
    var t := Spaces(v) + [CLOSE] + end;
    var x, g, tail := Spaces(p) + name + Spaces(q), [OPEN] + Spaces(r), op + (Spaces(u) + version + t);
    NameRead(p, name, q, g + tail);
    FirstOf(op, Spaces(u) + version + t);
    OpenRead(x, r, tail);
    CloseFirst(v, end);
    InsideRead(x + g, op, Spaces(u), version, t);
    Assoc(x, g, tail);
    Assoc(x + g, op, Spaces(u) + version + t);
  }

  lemma FirstOf(op: CString, t: CString)
    requires op != [] && AllIn(op, {LESS, EQUALS, MORE})
    ensures EndsRun(op + t, {SPACE, OPEN})
  {
    assert (op + t)[0] == op[0];
  }

  lemma CloseFirst(v: nat, end: CString)
    ensures (Spaces(v) + [CLOSE] + end)[0] in {SPACE, CLOSE}
  {
  }

  // ---------- whole lines ----------

  /** An alternative as it may be written, with the spaces before and after it. */
  datatype Written =
    | Plain(before: nat, name: CString, after: nat)
    | Versioned(before: nat, name: CString, op: Operator, version: CString, after: nat)

  predicate WellWritten(w: Written)
  {
    IsName(w.name) && (w.Versioned? ==> IsRelation(w.op) && IsVersion(w.version))
  }

  function Text(w: Written): CString
    requires WellWritten(w)
  {
    match w
    case Plain(p, name, q) => Spaces(p) + name + Spaces(q)
    case Versioned(p, name, op, version, q) =>
      VersionedText(p, name, 1, 0, RelationText(op), 1, version, 0, Spaces(q))
  }

  /** The edge that it stands for. */
  function EdgeOf(w: Written, kind: nat): Edge
  {
    match w
    case Plain(_, name, _) => Edge(kind, VerAny, name, Any(), 0)
    case Versioned(_, name, op, version, _) => Edge(kind, op, name, version, 0)
  }

  /** Reading gives back what was written, whatever the memory of the edge held. */
  lemma WrittenRead(w: Written, kind: nat, unset: Operator)
    requires WellWritten(w)
    ensures Alternative(Text(w), kind, unset) == EdgeOf(w, kind) && OperatorOf(Text(w)).Given?
  {
    hide Spaces, OperatorOf, NameOf, VersionOf, ReadOperator, VersionedText, IsName, IsVersion;
    match w
    case Plain(p, name, q) => PlainRead(p, name, q, kind, unset);
    case Versioned(p, name, op, version, q) =>
      VersionedRead(p, name, 1, 0, RelationText(op), 1, version, 0, Spaces(q));
      OperatorsRead(RelationText(op));
  }

  function Texts(ws: seq<Written>): (r: seq<CString>)
    requires forall k | 0 <= k < |ws| :: WellWritten(ws[k])
    ensures |r| == |ws| && forall k | 0 <= k < |ws| :: r[k] == Text(ws[k])
  {
    seq(|ws|, k requires 0 <= k < |ws| => Text(ws[k]))
  }

  function EdgesOf(ws: seq<Written>, kind: nat): (r: seq<Edge>)
    ensures |r| == |ws|
  {
    if ws == [] then [] else EdgesOf(ws[..|ws| - 1], kind) + [EdgeOf(ws[|ws| - 1], kind)]
  }

  lemma {:induction false} AlternativesRead(ws: seq<Written>, kind: nat, unset: seq<Operator>)
    requires |unset| == |ws| && forall k | 0 <= k < |ws| :: WellWritten(ws[k])
    ensures Alternatives(Texts(ws), kind, unset) == EdgesOf(ws, kind) && Legal(Texts(ws))
  {
    hide Alternative, OperatorOf, Text, WellWritten, EdgeOf;
    forall k | 0 <= k < |ws|
      ensures OperatorOf(Texts(ws)[k]).Given?
    {
      WrittenRead(ws[k], kind, VerNull);
    }
    if ws != [] {
      var n := |ws| - 1;
      AlternativesRead(ws[..n], kind, unset[..n]);
      assert Texts(ws)[..n] == Texts(ws[..n]);
      WrittenRead(ws[n], kind, unset[n]);
    }
  }

  // ---------- separators ----------

  /** The pieces with a separator between each two of them. */
  function Join(pieces: seq<CString>, separator: CChar): CString
  {
    if pieces == [] then [] else if |pieces| == 1 then pieces[0]
    else pieces[0] + [separator] + Join(pieces[1..], separator)
  }

  predicate IsPiece(s: CString, separator: CChar)
  {
    s != [] && NoneIn(s, {separator})
  }

  lemma {:induction false} SpanShift(x: CString, s: CString, i: nat, chars: set<CChar>)
    requires i <= |s|
    ensures Span(x + s, |x| + i, chars) == |x| + Span(s, i, chars)
    ensures SpanNot(x + s, |x| + i, chars) == |x| + SpanNot(s, i, chars)
    decreases |s| - i
  {
    if i < |s| { SpanShift(x, s, i + 1, chars); }
  }

  lemma {:induction false} TokensShift(x: CString, s: CString, i: nat, separator: CChar)
    requires i <= |s|
    ensures Tokens(x + s, |x| + i, separator) == Tokens(s, i, separator)
    decreases |s| - i
  {
    hide Span, SpanNot;
    var a := Span(s, i, {separator});
    var e := SpanNot(s, a, {separator});
    SpanShift(x, s, i, {separator});
    SpanShift(x, s, a, {separator});
    SpanMoves(s, a, separator);
    SpanEnd(s, i, separator);
    if a < |s| {
      TokensShift(x, s, e, separator);
      assert (x + s)[|x| + a..|x| + e] == s[a..e];
    }
  }

  lemma {:induction false} SpanEnd(s: CString, i: nat, separator: CChar)
    requires i <= |s|
    ensures Span(s, i, {separator}) < |s| ==> s[Span(s, i, {separator})] != separator
    decreases |s| - i
  {
    if i < |s| { SpanEnd(s, i + 1, separator); }
  }

  /** Splitting at the separators gives back the pieces. */
  lemma {:induction false} TokensJoin(pieces: seq<CString>, separator: CChar)
    requires forall k | 0 <= k < |pieces| :: IsPiece(pieces[k], separator)
    ensures Tokens(Join(pieces, separator), 0, separator) == pieces
  {
    hide Tokens, IsPiece;
    if pieces == [] {
      TokensEnd([], separator);
    } else {
      var s, first, rest := Join(pieces, separator), pieces[0], pieces[1..];
      if rest == [] {
        TokensFirst(first, [], separator);
        assert first + [] == s;
        TokensEnd(s, separator);
      } else {
        TokensJoin(rest, separator);
        var tail := [separator] + Join(rest, separator);
        assert s == first + tail && s == first + [separator] + Join(rest, separator);
        TokensFirst(first, tail, separator);
        TokensSkip(s, |first|, separator);
        TokensShift(first + [separator], Join(rest, separator), 0, separator);
      }
    }
  }

  lemma TokensFirst(first: CString, tail: CString, separator: CChar)
    requires IsPiece(first, separator) && (tail == [] || tail[0] == separator)
    ensures Tokens(first + tail, 0, separator) == [first] + Tokens(first + tail, |first|, separator)
  {
    hide Span, SpanNot;
    var s, chars := first + tail, {separator};
    assert s == [] + [] + s && s == [] + first + tail;
    SpanRun([], [], s, chars);
    SpanNotRun([], first, tail, chars);
    assert s[0..|first|] == first;
  }

  lemma TokensEnd(s: CString, separator: CChar)
    ensures Tokens(s, |s|, separator) == []
  {
  }

  lemma TokensSkip(s: CString, i: nat, separator: CChar)
    requires i < |s| && s[i] == separator
    ensures Tokens(s, i, separator) == Tokens(s, i + 1, separator)
  {
    assert Span(s, i, {separator}) == Span(s, i + 1, {separator});
  }

  // ---------- the edges of a line ----------

  /** A field: spaces, and alternatives of which the first begins without any. */
  datatype Field = Field(spaces: nat, choices: seq<Written>)

  predicate WellFormed(f: Field)
  {
    f.choices != [] && (forall k | 0 <= k < |f.choices| :: WellWritten(f.choices[k])) && f.choices[0].before == 0
  }

  /** The alternatives with bars between them. */
  function ChoicesText(f: Field): CString
    requires WellFormed(f)
  {
    Join(Texts(f.choices), BAR)
  }

  function FieldText(f: Field): CString
    requires WellFormed(f)
  {
    Spaces(f.spaces) + ChoicesText(f)
  }

  /** Its edges: behind a root that counts them, if there are several and it is a dependency. */
  function FieldEdges(f: Field, kind: nat): seq<Edge>
    requires WellFormed(f)
  {
    var edges := EdgesOf(f.choices, kind);
    if (kind == EDGE_DEPENDS || kind == EDGE_PRE_DEPENDS) && |edges| > 1
    then [Edge(kind + 1, VerNull, ChoicesText(f), [], |edges|)] + edges else edges
  }

  lemma TextPiece(w: Written)
    requires WellWritten(w)
    ensures IsPiece(Text(w), BAR) && IsPiece(Text(w), COMMA)
    ensures w.before == 0 ==> Text(w)[0] != SPACE
  {
    match w
    case Plain(p, name, q) =>
      NoneInThree(Spaces(p), name, Spaces(q), {BAR, COMMA});
      if p == 0 { assert Text(w)[0] == name[0]; }
    case Versioned(p, name, op, version, q) =>
      var t := Spaces(0) + [CLOSE] + Spaces(q);
      NoneInThree(Spaces(1), version, t, {BAR, COMMA});
      NoneInThree([OPEN] + Spaces(0), RelationText(op), Spaces(1) + version + t, {BAR, COMMA});
      NoneInThree(Spaces(p), name, Spaces(1), {BAR, COMMA});
      var x, paren := Spaces(p) + name + Spaces(1), [OPEN] + Spaces(0) + (RelationText(op) + (Spaces(1) + version + t));
      assert paren == [OPEN] + Spaces(0) + RelationText(op) + (Spaces(1) + version + t);
      NoneInThree(x, paren, [], {BAR, COMMA});
      assert Text(w) == x + paren == x + paren + [];
      if p == 0 { assert Text(w)[0] == name[0]; }
  }

  lemma NoneInThree(a: CString, b: CString, c: CString, chars: set<CChar>)
    requires NoneIn(a, chars) && NoneIn(b, chars) && NoneIn(c, chars)
    ensures NoneIn(a + b + c, chars)
  {
  }

  lemma {:induction false} JoinPiece(pieces: seq<CString>, separator: CChar, other: CChar)
    requires pieces != [] && pieces[0] != [] && separator != other
    requires forall k | 0 <= k < |pieces| :: IsPiece(pieces[k], other)
    ensures IsPiece(Join(pieces, separator), other) && Join(pieces, separator)[0] == pieces[0][0]
    ensures |pieces| > 1 ==> Join(pieces, separator) != pieces[0]
  {
    if |pieces| > 1 {
      assert IsPiece(pieces[1], other);
      JoinPiece(pieces[1..], separator, other);
    }
  }

  lemma FieldTrimmed(f: Field)
    requires WellFormed(f)
    ensures Trimmed(FieldText(f)) == ChoicesText(f) && IsPiece(FieldText(f), COMMA)
    ensures |f.choices| > 1 ==> ChoicesText(f) != Texts(f.choices)[0]
  {
    hide Span, Text, WellWritten;
    var ws := f.choices;
    forall k | 0 <= k < |ws|
      ensures IsPiece(Texts(ws)[k], COMMA)
    {
      TextPiece(ws[k]);
    }
    TextPiece(ws[0]);
    JoinPiece(Texts(ws), BAR, COMMA);
    var t := ChoicesText(f);
    assert FieldText(f) == [] + Spaces(f.spaces) + t;
    SpanRun([], Spaces(f.spaces), t, {SPACE});
  }

  /** A field is read as its alternatives. */
  lemma FieldRead(f: Field, kind: nat, unset: seq<Operator>)
    requires WellFormed(f) && |unset| == |Choices(FieldText(f))|
    ensures Choices(FieldText(f)) == Texts(f.choices) && |unset| == |f.choices|
    ensures FieldOutcome(FieldText(f), kind, unset) == Added(FieldEdges(f, kind))
    ensures Alternatives(Choices(FieldText(f)), kind, unset) == EdgesOf(f.choices, kind)
  {
    hide Tokens, Trimmed, Text, WellWritten, FieldText, Alternatives, EdgesOf, Legal;
    var ws := f.choices;
    forall k | 0 <= k < |ws|
      ensures IsPiece(Texts(ws)[k], BAR)
    {
      TextPiece(ws[k]);
    }
    FieldTrimmed(f);
    TokensJoin(Texts(ws), BAR);
    AlternativesRead(ws, kind, unset);
    assert |ws| == 1 ==> ChoicesText(f) == Texts(ws)[0];
  }

  function FieldTexts(fs: seq<Field>): (r: seq<CString>)
    requires forall i | 0 <= i < |fs| :: WellFormed(fs[i])
    ensures |r| == |fs| && forall i | 0 <= i < |fs| :: r[i] == FieldText(fs[i])
  {
    seq(|fs|, i requires 0 <= i < |fs| => FieldText(fs[i]))
  }

  /** A line of fields with commas between them. */
  function LineText(fs: seq<Field>): CString
    requires forall i | 0 <= i < |fs| :: WellFormed(fs[i])
  {
    Join(FieldTexts(fs), COMMA)
  }

  function LineEdges(fs: seq<Field>, kind: nat): seq<Edge>
    requires forall i | 0 <= i < |fs| :: WellFormed(fs[i])
  {
    if fs == [] then [] else LineEdges(fs[..|fs| - 1], kind) + FieldEdges(fs[|fs| - 1], kind)
  }

  function WrittenGroups(fs: seq<Field>, kind: nat): seq<seq<Edge>>
  {
    if fs == [] then [] else WrittenGroups(fs[..|fs| - 1], kind) + [EdgesOf(fs[|fs| - 1].choices, kind)]
  }

  lemma LineSplit(fs: seq<Field>)
    requires forall i | 0 <= i < |fs| :: WellFormed(fs[i])
    ensures Tokens(LineText(fs), 0, COMMA) == FieldTexts(fs)
  {
    hide Tokens, FieldText, WellFormed;
    forall i | 0 <= i < |fs|
      ensures IsPiece(FieldTexts(fs)[i], COMMA)
    {
      FieldTrimmed(fs[i]);
    }
    TokensJoin(FieldTexts(fs), COMMA);
  }

  lemma {:induction false} FieldsRead(fs: seq<Field>, kind: nat, unset: seq<seq<Operator>>)
    requires forall i | 0 <= i < |fs| :: WellFormed(fs[i])
    requires Fitting(FieldTexts(fs), unset)
    ensures LineOutcome(FieldTexts(fs), kind, unset) == Added(LineEdges(fs, kind))
    ensures LineGroups(FieldTexts(fs), kind, unset) == WrittenGroups(fs, kind)
  {
    hide FieldOutcome, FieldText, WellFormed, Choices, FieldEdges, EdgesOf, Alternatives;
    if fs != [] {
      var n := |fs| - 1;
      FittingPrefix(FieldTexts(fs), unset);
      assert FieldTexts(fs)[..n] == FieldTexts(fs[..n]);
      FieldsRead(fs[..n], kind, unset[..n]);
      FieldRead(fs[n], kind, unset[n]);
    }
  }

  /** A line as it is written gives exactly its edges, one for each alternative with its name, operator and version, and
      in a line of dependencies exactly these alternatives are those of the dependency that a field states. */
  lemma LineRead(fs: seq<Field>, kind: nat, unset: seq<seq<Operator>>)
    requires forall i | 0 <= i < |fs| :: WellFormed(fs[i])
    requires Fitting(Tokens(LineText(fs), 0, COMMA), unset)
    ensures LineOutcome(Tokens(LineText(fs), 0, COMMA), kind, unset) == Added(LineEdges(fs, kind))
    ensures LineGroups(Tokens(LineText(fs), 0, COMMA), kind, unset) == WrittenGroups(fs, kind)
  {
    hide Tokens, LineText, WellFormed, FieldTexts;
    LineSplit(fs);
    FieldsRead(fs, kind, unset);
  }

  /** add_split_dependencies on such a line. */
  method AddWritten(node: Node, fs: seq<Field>, kind: nat)
    requires fs != [] && forall i | 0 <= i < |fs| :: WellFormed(fs[i])
    modifies node
    ensures node.edges == old(node.edges) + LineEdges(fs, kind)
  {
    hide Tokens, LineText, WellFormed, FieldTexts, LineOutcome, CrashesAt;
    LineSplit(fs);
    var r;
    ghost var unset;
    r, unset := node.AddSplitDependencies(LineText(fs), kind);
    LineRead(fs, kind, unset);
  }
}
