/** expr: evaluating while parsing, against the values of expression trees. */
module Expr {
  import opened ExprValues
  import opened Options

  // ---------- tokens ----------

  function Token(op: Op): string
  {
    match op
    case Or => "|"
    case And => "&"
    case Less => "<"
    case LessEqual => "<="
    case Equal => "="
    case EqualEqual => "=="
    case NotEqual => "!="
    case MoreEqual => ">="
    case More => ">"
    case Plus => "+"
    case Minus => "-"
    case Times => "*"
    case Divided => "/"
    case Modulo => "%"
    case Colon => ":"
  }

  /** How tightly an operator binds: 0 for |, 5 for the colon. */
  function LevelOf(op: Op): (k: nat)
    ensures k < 6
  {
    match op
    case Or => 0
    case And => 1
    case Less => 2
    case LessEqual => 2
    case Equal => 2
    case EqualEqual => 2
    case NotEqual => 2
    case MoreEqual => 2
    case More => 2
    case Plus => 3
    case Minus => 3
    case Times => 4
    case Divided => 4
    case Modulo => 4
    case Colon => 5
  }

  function ReadOp(s: string): Option<Op>
  {
    if s == "|" then Some(Or) else if s == "&" then Some(And)
    else if s == "<" then Some(Less) else if s == "<=" then Some(LessEqual)
    else if s == "=" then Some(Equal) else if s == "==" then Some(EqualEqual)
    else if s == "!=" then Some(NotEqual) else if s == ">=" then Some(MoreEqual) else if s == ">" then Some(More)
    else if s == "+" then Some(Plus) else if s == "-" then Some(Minus)
    else if s == "*" then Some(Times) else if s == "/" then Some(Divided) else if s == "%" then Some(Modulo)
    else if s == ":" then Some(Colon) else None
  }

  lemma TokenReads(op: Op)
    ensures ReadOp(Token(op)) == Some(op)
  {
  }

  datatype Keyword = Quote | Length | Match | Index | Substr

  function ReadKeyword(s: string): Option<Keyword>
  {
    if s == "quote" then Some(Quote) else if s == "length" then Some(Length) else if s == "match" then Some(Match)
    else if s == "index" then Some(Index) else if s == "substr" then Some(Substr) else None
  }

  // ---------- what the parser does with a list of tokens ----------

  type Args = seq<string>

  /** The program has given up, or it has a value and goes on at the next token. */
  datatype Outcome = Died | Got(v: Value, next: nat)

  function OpAt(args: Args, i: nat, k: nat): Option<Op>
  {
    if i < |args| && ReadOp(args[i]).Some? && LevelOf(ReadOp(args[i]).value) == k then ReadOp(args[i]) else None
  }

  function Finish(v: Option<Value>, next: nat): Outcome
  {
    if v == None then Died else Got(v.value, next)
  }

  /** Levels 0 to 5 are those of the operators, 6 that of the keywords, 7 that of single tokens and parentheses. */
  function Level(k: nat, args: Args, i: nat, m: Matcher): (r: Outcome)
    requires k <= 7 && i <= |args|
    ensures r.Got? ==> i < r.next <= |args|
    decreases |args| - i, 8 - k
  {
    if k == 7 then Primary(args, i, m)
    else if k == 6 then WithKeyword(args, i, m)
    else
      var l := Level(k + 1, args, i, m);
      if l == Died then Died else Rest(k, args, l.v, l.next, m)
  }

  /** The loop of a level, with the left operand's value. */
  function Rest(k: nat, args: Args, l: Value, i: nat, m: Matcher): (r: Outcome)
    requires k < 6 && i <= |args|
    ensures r.Got? ==> i <= r.next <= |args|
    decreases |args| - i, 0
  {
    var op := OpAt(args, i, k);
    if op == None then Got(l, i)
    else
      var r := Level(k + 1, args, i + 1, m);
      if r == Died then Died
      else
        var v := Apply(op.value, l, r.v, m);
        if v == None then Died else Rest(k, args, v.value, r.next, m)
  }

  function WithKeyword(args: Args, i: nat, m: Matcher): (r: Outcome)
    requires i <= |args|
    ensures r.Got? ==> i < r.next <= |args|
    decreases |args| - i, 1
  {
    if i == |args| || ReadKeyword(args[i]) == None then Primary(args, i, m)
    else
      match ReadKeyword(args[i]).value
      case Quote => if i + 1 == |args| then Died else Got(Text(args[i + 1]), i + 2)
      case Length =>
        var r := WithKeyword(args, i + 1, m);
        if r == Died then Died else Got(Integer(|ToText(r.v)|), r.next)
      case Match =>
        var l := WithKeyword(args, i + 1, m);
        if l == Died then Died
        else
          var r := WithKeyword(args, l.next, m);
          if r == Died then Died else Finish(m(ToText(l.v), ToText(r.v)), r.next)
      case Index =>
        var l := WithKeyword(args, i + 1, m);
        if l == Died then Died
        else
          var r := WithKeyword(args, l.next, m);
          if r == Died then Died else Got(Integer(IndexOf(ToText(l.v), ToText(r.v), 0)), r.next)
      case Substr =>
        var l := WithKeyword(args, i + 1, m);
        if l == Died then Died
        else
          var r := WithKeyword(args, l.next, m);
          if r == Died then Died
          else
            var n := WithKeyword(args, r.next, m);
            if n == Died then Died else Got(Text(Substring(ToText(l.v), r.v, n.v)), n.next)
  }

  function Primary(args: Args, i: nat, m: Matcher): (r: Outcome)
    requires i <= |args|
    ensures r.Got? ==> i < r.next <= |args|
    decreases |args| - i, 0
  {
    if i == |args| then Died
    else if args[i] == "(" then
      var r := Level(0, args, i + 1, m);
      if r == Died || r.next == |args| || args[r.next] != ")" then Died else Got(r.v, r.next + 1)
    else if args[i] == ")" then Died
    else Got(Text(args[i]), i + 1)
  }

  // ---------- expression trees ----------

  datatype Tree = Leaf(s: string)
    | Binary(op: Op, l: Tree, r: Tree)
    | LengthOf(e: Tree)
    | MatchOf(l: Tree, r: Tree)
    | IndexIn(l: Tree, r: Tree)
    | SubstringOf(l: Tree, at: Tree, length: Tree)

  /** What a tree means. */
  function Meaning(e: Tree, m: Matcher): Option<Value>
  {
    match e
    case Leaf(s) => Some(Text(s))
    case Binary(op, l, r) =>
      var a, b := Meaning(l, m), Meaning(r, m);
      if a == None || b == None then None else Apply(op, a.value, b.value, m)
    case LengthOf(x) =>
      var a := Meaning(x, m);
      if a == None then None else Some(Integer(|ToText(a.value)|))
    case MatchOf(l, r) =>
      var a, b := Meaning(l, m), Meaning(r, m);
      if a == None || b == None then None else m(ToText(a.value), ToText(b.value))
    case IndexIn(l, r) =>
      var a, b := Meaning(l, m), Meaning(r, m);
      if a == None || b == None then None else Some(Integer(IndexOf(ToText(a.value), ToText(b.value), 0)))
    case SubstringOf(l, at, length) =>
      var a, b, c := Meaning(l, m), Meaning(at, m), Meaning(length, m);
      if a == None || b == None || c == None then None else Some(Text(Substring(ToText(a.value), b.value, c.value)))
  }

  function TreeLevel(e: Tree): (k: nat)
    ensures k <= 6
  {
    if e.Binary? then LevelOf(e.op) else 6
  }

  predicate NeedsQuote(s: string)
  {
    ReadKeyword(s).Some? || s == "(" || s == ")"
  }

  /** A tree as tokens, in parentheses only where an operand binds less tightly than its place asks. */
  function Print(e: Tree, k: nat): (t: seq<string>)
    decreases e, 1
  {
    if TreeLevel(e) < k then ["("] + PrintBare(e) + [")"] else PrintBare(e)
  }

  function PrintBare(e: Tree): seq<string>
    decreases e, 0
  {
    match e
    case Leaf(s) => if NeedsQuote(s) then ["quote", s] else [s]
    case Binary(op, l, r) => Print(l, LevelOf(op)) + [Token(op)] + Print(r, LevelOf(op) + 1)
    case LengthOf(x) => ["length"] + Print(x, 6)
    case MatchOf(l, r) => ["match"] + Print(l, 6) + Print(r, 6)
    case IndexIn(l, r) => ["index"] + Print(l, 6) + Print(r, 6)
    case SubstringOf(l, at, length) => ["substr"] + Print(l, 6) + Print(at, 6) + Print(length, 6)
  }

  // ---------- parsing what was printed ----------

  predicate At(args: Args, i: nat, t: seq<string>)
  {
    i + |t| <= |args| && args[i..i + |t|] == t
  }

  lemma AtParts(args: Args, i: nat, a: seq<string>, b: seq<string>)
    requires At(args, i, a + b)
    ensures At(args, i, a) && At(args, i + |a|, b)
  {
    var t := args[i..i + |a + b|];
    assert t[..|a|] == a && t[|a|..] == b;
    assert args[i..i + |a|] == t[..|a|];
    assert args[i + |a|..i + |a| + |b|] == t[|a|..];
  }

  lemma AtOne(args: Args, i: nat, s: string)
    requires At(args, i, [s])
    ensures i < |args| && args[i] == s
  {
    assert args[i] == args[i..i + 1][0];
  }

  /** No operator that binds more tightly than level k follows. */
  predicate Looser(args: Args, i: nat, k: nat)
  {
    i < |args| && ReadOp(args[i]).Some? ==> LevelOf(ReadOp(args[i]).value) <= k
  }

  /** What parsing at level k makes of a tree printed for that level: its meaning, and then the rest of the level. */
  function Expected(k: nat, e: Tree, args: Args, i: nat, m: Matcher): Outcome
    requires k <= 6 && At(args, i, Print(e, k))
  {
    var v := Meaning(e, m);
    if v == None then Died
    else if k == 6 then Got(v.value, i + |Print(e, k)|)
    else Rest(k, args, v.value, i + |Print(e, k)|, m)
  }

  /** Unfolding: the level's first operand. */
  lemma LevelFirst(k: nat, args: Args, i: nat, m: Matcher)
    requires k < 6 && i <= |args|
    ensures var l := Level(k + 1, args, i, m);
            Level(k, args, i, m) == if l == Died then Died else Rest(k, args, l.v, l.next, m)
  {
    hide Rest, WithKeyword, Primary;
  }

  lemma RestDone(k: nat, args: Args, v: Value, i: nat, m: Matcher)
    requires k < 6 && i <= |args| && OpAt(args, i, k) == None
    ensures Rest(k, args, v, i, m) == Got(v, i)
  {
    hide Level, Apply, ReadOp;
  }

  lemma LooserDone(args: Args, i: nat, k: nat)
    requires Looser(args, i, k)
    ensures Looser(args, i, k + 1) && OpAt(args, i, k + 1) == None
  {
    hide ReadOp;
  }

  /** An operand, parsed one level up, is complete if nothing that binds more tightly than this level follows. */
  lemma {:induction false} Operand(k: nat, e: Tree, args: Args, i: nat, m: Matcher)
    requires k < 6 && At(args, i, Print(e, k + 1)) && Looser(args, i + |Print(e, k + 1)|, k)
    ensures Level(k + 1, args, i, m) == Finish(Meaning(e, m), i + |Print(e, k + 1)|)
    decreases e, (if TreeLevel(e) < k + 1 then 20 - (k + 1) else 10 - (k + 1)), 1
  {
    hide ReadOp, Meaning, Level, Rest, Print, Looser, OpAt, LevelOf;
    var end := i + |Print(e, k + 1)|;
    LooserDone(args, end, k);
    PrintedParses(k + 1, e, args, i, m);
    if k + 1 < 6 && Meaning(e, m).Some? { RestDone(k + 1, args, Meaning(e, m).value, end, m); }
  }

  lemma {:induction false} PrintedParses(k: nat, e: Tree, args: Args, i: nat, m: Matcher)
    requires k <= 6 && At(args, i, Print(e, k)) && Looser(args, i + |Print(e, k)|, k)
    ensures Level(k, args, i, m) == Expected(k, e, args, i, m)
    decreases e, (if TreeLevel(e) < k then 20 - k else 10 - k), 0
  {
    hide ReadOp, Meaning, Level, Rest, PrintBare, Looser, LevelOf;
    if k == TreeLevel(e) {
      if k < 6 { BinaryParses(k, e, args, i, m); } else { WordParses(e, args, i, m); }
    } else if k < 6 {
      assert Print(e, k) == Print(e, k + 1);
      Operand(k, e, args, i, m);
      LevelFirst(k, args, i, m);
    } else {
      ParenthesesParse(e, args, i, m);
    }
  }

  /** An operator with both its operands. */
  lemma {:induction false} BinaryParses(k: nat, e: Tree, args: Args, i: nat, m: Matcher)
    requires e.Binary? && LevelOf(e.op) == k && At(args, i, Print(e, k)) && Looser(args, i + |Print(e, k)|, k)
    ensures Level(k, args, i, m) == Expected(k, e, args, i, m)
    decreases e, 0
  {
    hide ReadOp, Level, Rest, Apply, At, Looser, Token, LevelOf, OpAt;
    var left, right := Print(e.l, k), Print(e.r, k + 1);
    assert Print(e, k) == left + [Token(e.op)] + right;
    AtParts(args, i, left + [Token(e.op)], right);
    AtParts(args, i, left, [Token(e.op)]);
    var at := i + |left|;
    OperatorHere(args, at, e.op);
    PrintedParses(k, e.l, args, i, m);
    Operand(k, e.r, args, at + 1, m);
    if Meaning(e.l, m).Some? { RestStep(k, args, Meaning(e.l, m).value, at, m); }
  }

  lemma OperatorHere(args: Args, at: nat, op: Op)
    requires At(args, at, [Token(op)])
    ensures at < |args| && OpAt(args, at, LevelOf(op)) == Some(op) && Looser(args, at, LevelOf(op))
  {
    hide ReadOp, Token, LevelOf;
    AtOne(args, at, Token(op));
    TokenReads(op);
  }

  /** Unfolding: one turn of the loop. */
  lemma RestStep(k: nat, args: Args, l: Value, i: nat, m: Matcher)
    requires k < 6 && i < |args| && OpAt(args, i, k).Some?
    ensures var r := Level(k + 1, args, i + 1, m);
            var v := if r == Died then None else Apply(OpAt(args, i, k).value, l, r.v, m);
            Rest(k, args, l, i, m) == if r == Died || v == None then Died else Rest(k, args, v.value, r.next, m)
  {
    hide Level, Apply, ReadOp;
  }

  /** What binds too loosely for its place, in parentheses. */
  lemma {:induction false} ParenthesesParse(e: Tree, args: Args, i: nat, m: Matcher)
    requires TreeLevel(e) < 6 && At(args, i, Print(e, 6))
    ensures Level(6, args, i, m) == Expected(6, e, args, i, m)
    decreases e, 11
  {
    hide ReadOp, Meaning, Level, Rest, PrintBare, At, LevelOf;
    var bare := Print(e, 0);
    assert Print(e, 6) == ["("] + bare + [")"];
    AtParts(args, i, ["("] + bare, [")"]);
    AtParts(args, i, ["("], bare);
    AtOne(args, i, "(");
    var end := i + 1 + |bare|;
    AtOne(args, end, ")");
    CloseLooser(args, end);
    PrintedParses(0, e, args, i + 1, m);
    if Meaning(e, m).Some? { RestDone(0, args, Meaning(e, m).value, end, m); }
    OpenParsed(args, i, m);
  }

  lemma CloseLooser(args: Args, i: nat)
    requires i < |args| && args[i] == ")"
    ensures forall k: nat :: Looser(args, i, k) && OpAt(args, i, k) == None
  {
  }

  lemma OpenParsed(args: Args, i: nat, m: Matcher)
    requires i < |args| && args[i] == "("
    ensures var r := Level(0, args, i + 1, m);
            Level(6, args, i, m) == if r == Died || r.next == |args|
              || args[r.next] != ")" then Died else Got(r.v, r.next + 1)
  {
    hide Rest;
    assert ReadKeyword("(") == None;
    assert Level(6, args, i, m) == WithKeyword(args, i, m) == Primary(args, i, m);
  }

  /** Single tokens and keywords. */
  lemma {:induction false} WordParses(e: Tree, args: Args, i: nat, m: Matcher)
    requires !e.Binary? && At(args, i, Print(e, 6))
    ensures Level(6, args, i, m) == Expected(6, e, args, i, m)
    decreases e, 3
  {
    match e
    case Leaf(s) => LeafParses(s, args, i, m);
    case LengthOf(_) => LengthParses(e, args, i, m);
    case MatchOf(_, _) => MatchParses(e, args, i, m);
    case IndexIn(_, _) => IndexParses(e, args, i, m);
    case SubstringOf(_, _, _) => SubstringParses(e, args, i, m);
  }

  lemma LeafParses(s: string, args: Args, i: nat, m: Matcher)
    requires At(args, i, Print(Leaf(s), 6))
    ensures Level(6, args, i, m) == Got(Text(s), i + |Print(Leaf(s), 6)|)
  {
    hide Rest, At;
    if NeedsQuote(s) {
      assert Print(Leaf(s), 6) == ["quote"] + [s];
      AtParts(args, i, ["quote"], [s]);
      AtOne(args, i, "quote");
      AtOne(args, i + 1, s);
      assert Level(6, args, i, m) == WithKeyword(args, i, m);
    } else {
      assert Print(Leaf(s), 6) == [s];
      AtOne(args, i, s);
      assert Level(6, args, i, m) == WithKeyword(args, i, m) == Primary(args, i, m);
    }
  }

  /** One operand of a keyword. */
  lemma {:induction false} WordOperand(e: Tree, args: Args, i: nat, m: Matcher)
    requires At(args, i, Print(e, 6))
    ensures WithKeyword(args, i, m) == Finish(Meaning(e, m), i + |Print(e, 6)|)
    decreases e, 30
  {
    hide Print, At, Meaning, Rest, WithKeyword, Primary;
    TopLooser(args, i + |Print(e, 6)|);
    PrintedParses(6, e, args, i, m);
  }

  lemma TopLooser(args: Args, i: nat)
    ensures Looser(args, i, 6)
  {
    hide ReadOp;
  }

  /** What a tree that begins with a keyword is printed as. */
  lemma KeywordPrint(e: Tree)
    requires !e.Binary? && !e.Leaf?
    ensures Print(e, 6) ==
            match e
            case LengthOf(x) => ["length"] + Print(x, 6)
            case MatchOf(l, r) => ["match"] + Print(l, 6) + Print(r, 6)
            case IndexIn(l, r) => ["index"] + Print(l, 6) + Print(r, 6)
            case SubstringOf(l, at, length) => ["substr"] + Print(l, 6) + Print(at, 6) + Print(length, 6)
            case _ => []
  {
  }

  lemma {:induction false} LengthParses(e: Tree, args: Args, i: nat, m: Matcher)
    requires e.LengthOf? && At(args, i, Print(e, 6))
    ensures Level(6, args, i, m) == Expected(6, e, args, i, m)
    decreases e, 2
  {
    hide At, Rest, Primary, Print;
    KeywordPrint(e);
    AtParts(args, i, ["length"], Print(e.e, 6));
    AtOne(args, i, "length");
    WordOperand(e.e, args, i + 1, m);
  }

  lemma {:induction false} MatchParses(e: Tree, args: Args, i: nat, m: Matcher)
    requires e.MatchOf? && At(args, i, Print(e, 6))
    ensures Level(6, args, i, m) == Expected(6, e, args, i, m)
    decreases e, 2
  {
    hide At, Rest, Primary, Print;
    var left, right := Print(e.l, 6), Print(e.r, 6);
    KeywordPrint(e);
    AtParts(args, i, ["match"] + left, right);
    AtParts(args, i, ["match"], left);
    AtOne(args, i, "match");
    WordOperand(e.l, args, i + 1, m);
    WordOperand(e.r, args, i + 1 + |left|, m);
  }

  lemma {:induction false} IndexParses(e: Tree, args: Args, i: nat, m: Matcher)
    requires e.IndexIn? && At(args, i, Print(e, 6))
    ensures Level(6, args, i, m) == Expected(6, e, args, i, m)
    decreases e, 2
  {
    hide At, Rest, Primary, Print;
    var left, right := Print(e.l, 6), Print(e.r, 6);
    KeywordPrint(e);
    AtParts(args, i, ["index"] + left, right);
    AtParts(args, i, ["index"], left);
    AtOne(args, i, "index");
    WordOperand(e.l, args, i + 1, m);
    WordOperand(e.r, args, i + 1 + |left|, m);
  }

  lemma {:induction false} SubstringParses(e: Tree, args: Args, i: nat, m: Matcher)
    requires e.SubstringOf? && At(args, i, Print(e, 6))
    ensures Level(6, args, i, m) == Expected(6, e, args, i, m)
    decreases e, 2
  {
    hide At, Rest, Primary, Print;
    var left, at, length := Print(e.l, 6), Print(e.at, 6), Print(e.length, 6);
    KeywordPrint(e);
    AtParts(args, i, ["substr"] + left + at, length);
    AtParts(args, i, ["substr"] + left, at);
    AtParts(args, i, ["substr"], left);
    AtOne(args, i, "substr");
    WordOperand(e.l, args, i + 1, m);
    WordOperand(e.at, args, i + 1 + |left|, m);
    WordOperand(e.length, args, i + 1 + |left| + |at|, m);
  }

  /** Any tree, printed with no more parentheses than needed, evaluates to its meaning; just its tokens are read. */
  lemma PrintedEvaluates(e: Tree, m: Matcher)
    ensures Level(0, Print(e, 0), 0, m) == Finish(Meaning(e, m), |Print(e, 0)|)
  {
    hide ReadOp, Meaning, Level, Rest, Print, LevelOf;
    var args := Print(e, 0);
    assert args[0..0 + |args|] == args;
    PrintedParses(0, e, args, 0, m);
    if Meaning(e, m).Some? { RestDone(0, args, Meaning(e, m).value, |args|, m); }
  }

  // ---------- the program ----------

  /** What nextarg returns for an operator. */
  function Code(s: string): nat
    requires s != []
  {
    s[0] as int + if |s| > 1 then s[1] as int else 0
  }

  function CodeOf(op: Option<Op>): nat
  {
    if op == None then 0 else Code(Token(op.value))
  }

  ghost predicate Returns(o: Outcome, r: Option<Value>, pos: nat)
  {
    if o == Died then r == None else r == Some(o.v) && pos == o.next
  }

  /** What is printed, and the exit status: 1 for the empty string and 0. */
  function Report(v: Option<Value>): Option<(string, nat)>
  {
    if v == None then None else Some((ToText(v.value), if Null(v.value) then 1 else 0))
  }

  /** cmp_common. */
  method CmpCommon(l: Value, r: Value, code: nat, ghost op: Op) returns (val: Value)
    requires code == Code(Token(op)) && LevelOf(op) == 2
    ensures val == Integer(if Holds(op, Difference(l, r)) then 1 else 0)
  {
    var ll: int, rr: int := 0, 0;
    if l.Text? || r.Text? {
      ll := CompareText(ToText(l), ToText(r));
    } else {
      ll, rr := l.i, r.i;
    }
    var c: bool;
    if code == '<' as int { c := ll < rr; }
    else if code == '<' as int + '=' as int { c := ll <= rr; }
    else if code == '=' as int || code == '=' as int + '=' as int { c := ll == rr; }
    else if code == '!' as int + '=' as int { c := ll != rr; }
    else if code == '>' as int { c := ll > rr; }
    else { c := ll >= rr; }
    val := Integer(if c then 1 else 0);
  }

  /** arithmetic_common. */
  method ArithmeticCommon(l: Value, r: Value, code: nat, ghost op: Op) returns (val: Option<Value>)
    requires code == Code(Token(op)) && 3 <= LevelOf(op) <= 4
    ensures val == Calculate(op, l, r)
  {
    hide ReadInteger;
    var li, ri := ToInteger(l), ToInteger(r);
    if li.Text? || ri.Text? { return None; }
    if code == '+' as int { return Some(Integer(li.i + ri.i)); }
    if code == '-' as int { return Some(Integer(li.i - ri.i)); }
    if code == '*' as int { return Some(Integer(li.i * ri.i)); }
    if ri.i == 0 { return None; }
    if code == '/' as int { return Some(Integer(Quotient(li.i, ri.i))); }
    return Some(Integer(Remainder(li.i, ri.i)));
  }

  class Evaluator {
    const args: Args
    const m: Matcher
    var pos: nat

    constructor (args: Args, m: Matcher)
      ensures this.args == args && this.m == m && pos == 0
    {
      this.args := args;
      this.m := m;
      pos := 0;
    }

    /** nextarg. */
    function NextArg(s: string): (c: nat)
      requires s != [] && s[0] != 0 as char
      reads this
      ensures c == if pos < |args| && args[pos] == s then Code(s) else 0
      ensures c != 0 <==> pos < |args| && args[pos] == s
    {
      if pos >= |args| || args[pos] != s then 0 else Code(s)
    }

    method FactorOp() returns (code: nat)
      ensures code == CodeOf(OpAt(args, pos, 4))
    {
      code := NextArg("*");
      if code == 0 { code := NextArg("/"); }
      if code == 0 { code := NextArg("%"); }
    }

    method TermOp() returns (code: nat)
      ensures code == CodeOf(OpAt(args, pos, 3))
    {
      code := NextArg("+");
      if code == 0 { code := NextArg("-"); }
    }

    method ComparisonOp() returns (code: nat)
      ensures code == CodeOf(OpAt(args, pos, 2))
    {
      code := NextArg("<");
      if code == 0 { code := NextArg("<="); }
      if code == 0 { code := NextArg("="); }
      if code == 0 { code := NextArg("=="); }
      if code == 0 { code := NextArg("!="); }
      if code == 0 { code := NextArg(">="); }
      if code == 0 { code := NextArg(">"); }
    }

    /** eval7: single tokens and parentheses. */
    method Eval7() returns (r: Option<Value>)
      requires pos <= |args|
      modifies this
      ensures pos <= |args| && Returns(Primary(args, old(pos), m), r, pos)
      decreases |args| - pos, 0
    {
      hide Level, Rest, WithKeyword;
      if pos == |args| { return None; }
      if NextArg("(") != 0 {
        pos := pos + 1;
        r := Eval();
        if r == None { return; }
        if NextArg(")") == 0 { return None; }
        pos := pos + 1;
        return;
      }
      if NextArg(")") != 0 { return None; }
      pos := pos + 1;
      return Some(Text(args[pos - 1]));
    }

    /** eval6: keywords. */
    method Eval6() returns (r: Option<Value>)
      requires pos <= |args|
      modifies this
      ensures pos <= |args| && Returns(WithKeyword(args, old(pos), m), r, pos)
      decreases |args| - pos, 1
    {
      hide Level, Rest, Primary, ReadKeyword;
      if pos == |args| || ReadKeyword(args[pos]) == None {
        r := Eval7();
        return;
      }
      var key := ReadKeyword(args[pos]).value;
      pos := pos + 1;
      if key == Quote {
        if pos == |args| { return None; }
        pos := pos + 1;
        return Some(Text(args[pos - 1]));
      }
      var l := Eval6();
      if l == None { return None; }
      if key == Length { return Some(Integer(|ToText(l.value)|)); }
      r := Eval6();
      if r == None { return None; }
      if key == Match { return m(ToText(l.value), ToText(r.value)); }
      if key == Index { return Some(Integer(IndexOf(ToText(l.value), ToText(r.value), 0))); }
      var n := Eval6();
      if n == None { return None; }
      return Some(Text(Substring(ToText(l.value), r.value, n.value)));
    }

    /** eval5: the colon. */
    method Eval5() returns (r: Option<Value>)
      requires pos <= |args|
      modifies this
      ensures pos <= |args| && Returns(Level(5, args, old(pos), m), r, pos)
      decreases |args| - pos, 3
    {
      hide Rest, WithKeyword, ReadOp, Primary, OpAt;
      var start := pos;
      var l := Eval6();
      LevelFirst(5, args, start, m);
      if l == None { return None; }
      while NextArg(":") != 0
        invariant pos <= |args| && l.Some? && Level(5, args, start, m) == Rest(5, args, l.value, pos, m)
        decreases |args| - pos
      {
        AloneOp(args, pos, Colon);
        RestStep(5, args, l.value, pos, m);
        pos := pos + 1;
        r := Eval6();
        if r == None { return; }
        l := m(ToText(l.value), ToText(r.value));
        if l == None { return None; }
      }
      AloneOp(args, pos, Colon);
      RestDone(5, args, l.value, pos, m);
      return l;
    }

    /** eval4: multiplication and division. */
    method Eval4() returns (r: Option<Value>)
      requires pos <= |args|
      modifies this
      ensures pos <= |args| && Returns(Level(4, args, old(pos), m), r, pos)
      decreases |args| - pos, 4
    {
      hide Rest, Level, Apply, Calculate, OpAt, LevelOf;
      var start := pos;
      var l := Eval5();
      LevelFirst(4, args, start, m);
      if l == None { return None; }
      while true
        invariant pos <= |args| && l.Some? && Level(4, args, start, m) == Rest(4, args, l.value, pos, m)
        decreases |args| - pos
      {
        var code := FactorOp();
        CodeZero(OpAt(args, pos, 4));
        if code == 0 {
          RestDone(4, args, l.value, pos, m);
          return l;
        }
        ghost var op := OpAt(args, pos, 4).value;
        OpHere(args, pos, 4);
        RestStep(4, args, l.value, pos, m);
        pos := pos + 1;
        r := Eval5();
        if r == None { return; }
        ApplyArithmetic(op, l.value, r.value, m);
        l := ArithmeticCommon(l.value, r.value, code, op);
        if l == None { return None; }
      }
    }

    /** eval3: addition and subtraction. */
    method Eval3() returns (r: Option<Value>)
      requires pos <= |args|
      modifies this
      ensures pos <= |args| && Returns(Level(3, args, old(pos), m), r, pos)
      decreases |args| - pos, 5
    {
      hide Rest, Level, Apply, Calculate, OpAt, LevelOf;
      var start := pos;
      var l := Eval4();
      LevelFirst(3, args, start, m);
      if l == None { return None; }
      while true
        invariant pos <= |args| && l.Some? && Level(3, args, start, m) == Rest(3, args, l.value, pos, m)
        decreases |args| - pos
      {
        var code := TermOp();
        CodeZero(OpAt(args, pos, 3));
        if code == 0 {
          RestDone(3, args, l.value, pos, m);
          return l;
        }
        ghost var op := OpAt(args, pos, 3).value;
        OpHere(args, pos, 3);
        RestStep(3, args, l.value, pos, m);
        pos := pos + 1;
        r := Eval4();
        if r == None { return; }
        ApplyArithmetic(op, l.value, r.value, m);
        l := ArithmeticCommon(l.value, r.value, code, op);
        if l == None { return None; }
      }
    }

    /** eval2: comparisons. */
    method Eval2() returns (r: Option<Value>)
      requires pos <= |args|
      modifies this
      ensures pos <= |args| && Returns(Level(2, args, old(pos), m), r, pos)
      decreases |args| - pos, 6
    {
      hide Rest, Level, Apply, Holds, Difference, OpAt, LevelOf;
      var start := pos;
      var l := Eval3();
      LevelFirst(2, args, start, m);
      if l == None { return None; }
      while true
        invariant pos <= |args| && l.Some? && Level(2, args, start, m) == Rest(2, args, l.value, pos, m)
        decreases |args| - pos
      {
        var code := ComparisonOp();
        CodeZero(OpAt(args, pos, 2));
        if code == 0 {
          RestDone(2, args, l.value, pos, m);
          return l;
        }
        ghost var op := OpAt(args, pos, 2).value;
        OpHere(args, pos, 2);
        RestStep(2, args, l.value, pos, m);
        pos := pos + 1;
        r := Eval3();
        if r == None { return; }
        ApplyComparison(op, l.value, r.value, m);
        var val := CmpCommon(ToInteger(l.value), ToInteger(r.value), code, op);
        l := Some(val);
      }
    }

    /** eval1: the ampersand. */
    method Eval1() returns (r: Option<Value>)
      requires pos <= |args|
      modifies this
      ensures pos <= |args| && Returns(Level(1, args, old(pos), m), r, pos)
      decreases |args| - pos, 7
    {
      hide Rest, Level, ReadOp, OpAt;
      var start := pos;
      var l := Eval2();
      LevelFirst(1, args, start, m);
      if l == None { return None; }
      AloneOp(args, pos, And);
      while NextArg("&") != 0
        invariant pos <= |args| && l.Some? && Level(1, args, start, m) == Rest(1, args, l.value, pos, m)
        invariant OpAt(args, pos, 1) == if pos < |args| && args[pos] == "&" then Some(And) else None
        decreases |args| - pos
      {
        RestStep(1, args, l.value, pos, m);
        pos := pos + 1;
        r := Eval2();
        if r == None { return; }
        if Null(l.value) || Null(r.value) { l := Some(Integer(0)); }
        AloneOp(args, pos, And);
      }
      RestDone(1, args, l.value, pos, m);
      return l;
    }

    /** eval: the bar. */
    method Eval() returns (r: Option<Value>)
      requires pos <= |args|
      modifies this
      ensures pos <= |args| && Returns(Level(0, args, old(pos), m), r, pos)
      decreases |args| - pos, 8
    {
      hide Rest, Level, ReadOp, OpAt;
      var start := pos;
      var l := Eval1();
      LevelFirst(0, args, start, m);
      if l == None { return None; }
      AloneOp(args, pos, Or);
      while NextArg("|") != 0
        invariant pos <= |args| && l.Some? && Level(0, args, start, m) == Rest(0, args, l.value, pos, m)
        invariant OpAt(args, pos, 0) == if pos < |args| && args[pos] == "|" then Some(Or) else None
        decreases |args| - pos
      {
        RestStep(0, args, l.value, pos, m);
        pos := pos + 1;
        r := Eval1();
        if r == None { return; }
        if Null(l.value) { l := r; }
        AloneOp(args, pos, Or);
      }
      RestDone(0, args, l.value, pos, m);
      return l;
    }

    /** expr_main: the line printed and the exit status, or None where it gives up. */
    method Run() returns (r: Option<(string, nat)>)
      requires pos == 0
      modifies this
      ensures var o := Level(0, args, 0, m);
              r == Report(if o.Got? && o.next == |args| then Some(o.v) else None)
      ensures forall e: Tree :: args == Print(e, 0) ==> r == Report(Meaning(e, m))
    {
      hide Rest, Meaning, Print;
      if pos == |args| { r := None; } else {
        var v := Eval();
        if v == None || pos != |args| { r := None; } else {
          r := Some((ToText(v.value), if Null(v.value) then 1 else 0));
        }
      }
      forall e: Tree | args == Print(e, 0)
        ensures r == Report(Meaning(e, m))
      {
        PrintedEvaluates(e, m);
        PrintNonempty(e, 0);
      }
    }
  }

  lemma {:induction false} PrintNonempty(e: Tree, k: nat)
    ensures Print(e, k) != []
  {
  }

  /** The operators that have a level to themselves. */
  lemma AloneOp(args: Args, i: nat, op: Op)
    requires op.Or? || op.And? || op.Colon?
    ensures OpAt(args, i, LevelOf(op)) == if i < |args| && args[i] == Token(op) then Some(op) else None
  {
  }

  lemma CodeZero(op: Option<Op>)
    ensures CodeOf(op) == 0 <==> op == None
  {
  }

  lemma OpHere(args: Args, i: nat, k: nat)
    requires OpAt(args, i, k).Some?
    ensures i < |args| && LevelOf(OpAt(args, i, k).value) == k
    ensures CodeOf(OpAt(args, i, k)) == Code(Token(OpAt(args, i, k).value))
  {
    hide ReadOp, LevelOf;
  }

  lemma ApplyArithmetic(op: Op, l: Value, r: Value, m: Matcher)
    requires 3 <= LevelOf(op) <= 4
    ensures Apply(op, l, r, m) == Calculate(op, l, r)
  {
    hide Calculate;
  }

  lemma ApplyComparison(op: Op, l: Value, r: Value, m: Matcher)
    requires LevelOf(op) == 2
    ensures Apply(op, l, r, m) == Some(Integer(if Holds(op, Difference(ToInteger(l), ToInteger(r))) then 1 else 0))
  {
    hide Holds, Difference;
  }
}
