/** The laws of expr's operators, on the values themselves. */
module ExprLaws {
  import opened ExprValues
  import opened Expr
  import opened Options

  // ---------- numbers ----------

  /** Whatever is no number makes arithmetic give up, and so does dividing by zero; nothing else does. */
  lemma ArithmeticDies(op: Op, l: Value, r: Value)
    requires 3 <= LevelOf(op) <= 4
    ensures Calculate(op, l, r) == None <==>
            ToInteger(l).Text? || ToInteger(r).Text? || ((op.Divided? || op.Modulo?) && ToInteger(r) == Integer(0))
  {
    hide ReadInteger;
  }

  /** Strings that are numbers count as these. */
  lemma TextsCount(op: Op, a: int, b: int)
    requires 3 <= LevelOf(op) <= 4
    ensures Calculate(op, Text(IntegerText(a)), Text(IntegerText(b))) == Calculate(op, Integer(a), Integer(b))
  {
    hide ReadInteger, IntegerText, Quotient;
    IntegerTextReads(a);
    IntegerTextReads(b);
  }

  ghost predicate Gives(op: Op, a: int, b: int, c: int)
  {
    Calculate(op, Integer(a), Integer(b)) == Some(Integer(c))
  }

  /** Adding: 0 is neutral, the order does not matter, and one more gives one more. */
  lemma PlusLaws(a: int, b: int, c: int)
    ensures Gives(Plus, a, 0, a)
    ensures Gives(Plus, a, b, c) <==> Gives(Plus, b, a, c)
    ensures Gives(Plus, a, b, c) <==> Gives(Plus, a, b + 1, c + 1)
  {
  }

  /** Subtracting undoes adding, and adding undoes subtracting. */
  lemma MinusUndoes(a: int, b: int, c: int)
    ensures Gives(Plus, a, b, c) <==> Gives(Minus, c, b, a)
  {
  }

  /** Multiplying: by 0, by 1, and by one more. */
  lemma TimesLaws(a: int, b: int, c: int)
    ensures Gives(Times, a, 0, 0) && Gives(Times, a, 1, a)
    ensures Gives(Times, a, b, c) <==> Gives(Times, a, b + 1, c + a)
    ensures Gives(Times, a, b, c) <==> Gives(Times, b, a, c)
  {
    assert a * (b + 1) == a * b + a && a * b == b * a;
  }

  /** Dividing leaves a remainder smaller than the divisor, which is 0 or has the sign of the dividend. */
  lemma DivisionLaw(a: int, b: int, q: int, r: int)
    requires b != 0
    ensures Gives(Divided, a, b, q) && Gives(Modulo, a, b, r) <==>
            a == b * q + r && (if b > 0 then -b < r < b else b < r < -b) && (r == 0 || (r > 0) == (a > 0))
  {
    var q0, r0 := Quotient(a, b), Remainder(a, b);
    assert Gives(Divided, a, b, q0) && Gives(Modulo, a, b, r0);
    QuotientBounds(a, b);
    if a == b * q + r && (if b > 0 then -b < r < b else b < r < -b) && (r == 0 || (r > 0) == (a > 0)) {
      DivisionUnique(b, q, r, q0, r0);
    }
  }

  lemma QuotientBounds(a: int, b: int)
    requires b != 0
    ensures var r := Remainder(a, b);
            (if b > 0 then -b < r < b else b < r < -b) && (r == 0 || (r > 0) == (a > 0))
  {
    var c := if a >= 0 then a else -a;
    assert c == b * (c / b) + c % b;
    if a < 0 { assert b * -(c / b) == -(b * (c / b)); }
  }

  lemma DivisionUnique(b: int, q: int, r: int, q0: int, r0: int)
    requires b != 0 && b * q + r == b * q0 + r0
    requires if b > 0 then -b < r < b && -b < r0 < b else b < r < -b && b < r0 < -b
    requires (r >= 0 && r0 >= 0) || (r <= 0 && r0 <= 0)
    ensures q == q0 && r == r0
  {
    assert b * (q - q0) == r0 - r && b * (q0 - q) == r - r0;
    if q > q0 { OneAtLeast(b, q - q0); }
    if q < q0 { OneAtLeast(b, q0 - q); }
  }

  lemma OneAtLeast(b: int, d: int)
    requires d >= 1
    ensures if b > 0 then b * d >= b else b * d <= b
  {
    var e := d - 1;
    assert b * d == b + b * e;
    if b > 0 { assert b * e >= 0; } else { assert b * e <= 0; }
  }

  // ---------- comparisons ----------

  /** Where two strings differ first, or one ends, the first is smaller. */
  ghost predicate EarlierAt(a: string, b: string, k: nat)
  {
    k <= |a| && k <= |b| && a[..k] == b[..k] && k < |b| && (k == |a| || a[k] < b[k])
  }

  ghost predicate Earlier(a: string, b: string)
  {
    exists k: nat :: EarlierAt(a, b, k)
  }

  /** strcmp is the lexicographic order. */
  lemma {:induction false} CompareTextOrder(a: string, b: string)
    ensures CompareText(a, b) == 0 <==> a == b
    ensures CompareText(a, b) == -1 <==> Earlier(a, b)
    ensures CompareText(a, b) == 1 <==> Earlier(b, a)
    decreases |a|
  {
    if a == [] || b == [] || a[0] != b[0] {
      FirstDiffers(a, b);
      FirstDiffers(b, a);
    } else {
      CompareTextOrder(a[1..], b[1..]);
      EarlierTail(a, b);
      EarlierTail(b, a);
      assert a == [a[0]] + a[1..] && b == [b[0]] + b[1..];
    }
  }

  lemma FirstDiffers(a: string, b: string)
    requires a == [] || b == [] || a[0] != b[0]
    ensures Earlier(a, b) <==> b != [] && (a == [] || a[0] < b[0])
  {
    if b != [] && (a == [] || a[0] < b[0]) { assert EarlierAt(a, b, 0); }
    if k: nat :| EarlierAt(a, b, k) {
      if k > 0 { SameFirst(a, b, k); }
    }
  }

  lemma SameFirst(a: string, b: string, k: nat)
    requires 0 < k && k <= |a| && k <= |b| && a[..k] == b[..k]
    ensures a != [] && b != [] && a[0] == b[0]
  {
    assert a[..k][0] == b[..k][0];
  }

  lemma EarlierTail(a: string, b: string)
    requires a != [] && b != [] && a[0] == b[0]
    ensures Earlier(a, b) <==> Earlier(a[1..], b[1..])
  {
    if k: nat :| EarlierAt(a, b, k) {
      assert k > 0;
      assert a[1..][..k - 1] == a[..k][1..] && b[1..][..k - 1] == b[..k][1..];
      assert EarlierAt(a[1..], b[1..], k - 1);
    }
    if k: nat :| EarlierAt(a[1..], b[1..], k) {
      assert a[..k + 1] == [a[0]] + a[1..][..k] && b[..k + 1] == [b[0]] + b[1..][..k];
      assert EarlierAt(a, b, k + 1);
    }
  }

  /** What the comparison op gives when the left side is less, equal or greater. */
  predicate Asks(op: Op, less: bool, equal: bool)
    requires LevelOf(op) == 2
  {
    match op
    case Less => less
    case LessEqual => less || equal
    case Equal => equal
    case EqualEqual => equal
    case NotEqual => !equal
    case MoreEqual => !less
    case More => !less && !equal
  }

  /** Two numbers, or strings that are, compare as numbers. */
  lemma NumbersCompare(op: Op, l: Value, r: Value, m: Matcher)
    requires LevelOf(op) == 2 && ToInteger(l).Integer? && ToInteger(r).Integer?
    ensures var a, b := ToInteger(l).i, ToInteger(r).i;
            Apply(op, l, r, m) == Some(Integer(if Asks(op, a < b, a == b) then 1 else 0))
  {
    hide ReadInteger;
  }

  /** Anything else compares as strings, by the first place where these differ. */
  lemma TextsCompare(op: Op, l: Value, r: Value, m: Matcher)
    requires LevelOf(op) == 2 && (ToInteger(l).Text? || ToInteger(r).Text?)
    ensures var a, b := ToText(ToInteger(l)), ToText(ToInteger(r));
            Apply(op, l, r, m) == Some(Integer(if Asks(op, Earlier(a, b), a == b) then 1 else 0))
  {
    hide ReadInteger, IntegerText, CompareText, Earlier;
    var a, b := ToText(ToInteger(l)), ToText(ToInteger(r));
    CompareTextOrder(a, b);
    CompareTextRange(a, b);
  }

  lemma {:induction false} CompareTextRange(a: string, b: string)
    ensures -1 <= CompareText(a, b) <= 1
    decreases |a|
  {
    if a != [] && b != [] { CompareTextRange(a[1..], b[1..]); }
  }

  // ---------- | and & ----------

  /** Null are the number 0, the empty string and the string 0. */
  lemma NullIs(i: int, s: string)
    ensures (Null(Integer(i)) <==> i == 0) && (Null(Text(s)) <==> s == [] || s == ['0'])
  {
  }

  /** The bar gives its left operand unless that is null, the ampersand if neither is, else 0. */
  lemma EitherBoth(l: Value, r: Value, m: Matcher)
    ensures Apply(Or, l, r, m) == if Null(l) then Some(r) else Some(l)
    ensures Apply(And, l, r, m) == if !Null(l) && !Null(r) then Some(l) else Some(Integer(0))
    ensures Null(Integer(0))
  {
  }

  // ---------- index ----------

  /** The first position of a character that is asked for, counted from 1, and 0 if and only if there is none. */
  lemma IndexFirst(s: string, chars: string)
    ensures IndexOf(s, chars, 0) <= |s|
    ensures IndexOf(s, chars, 0) == 0 <==> forall k | 0 <= k < |s| :: s[k] !in chars
    ensures var p := IndexOf(s, chars, 0);
            p > 0 ==> s[p - 1] in chars && forall k | 0 <= k < p - 1 :: s[k] !in chars
  {
    IndexFrom(s, chars, 0);
  }

  lemma {:induction false} IndexFrom(s: string, chars: string, i: nat)
    requires i <= |s|
    ensures var p := IndexOf(s, chars, i);
            if p == 0 then forall k | i <= k < |s| :: s[k] !in chars
            else i < p <= |s| && s[p - 1] in chars && forall k | i <= k < p - 1 :: s[k] !in chars
    decreases |s| - i
  {
    if i < |s| && s[i] !in chars { IndexFrom(s, chars, i + 1); }
  }

  // ---------- reading and writing numbers ----------

  /** Numbers are written in decimal. */
  lemma DecimalWritten(n: nat, d: nat)
    requires d < 10
    ensures IntegerText(10 * n + d) == (if n == 0 then "" else IntegerText(n)) + ["0123456789"[d]]
    ensures var i: int := n; i > 0 ==> IntegerText(-i) == "-" + IntegerText(i)
  {
    assert (10 * n + d) / 10 == n && (10 * n + d) % 10 == d;
    assert "0123456789"[d] == (d + 48) as char;
  }

  lemma {:induction false} DigitsSome(s: string)
    ensures Digits(s).Some? <==> forall k | 0 <= k < |s| :: IsDigit(s[k])
  {
    if s != [] { DigitsSome(s[..|s| - 1]); }
  }

  lemma {:induction false} SpacesSkipped(p: string, s: string)
    requires forall k | 0 <= k < |p| :: IsSpace(p[k])
    ensures ReadInteger(p + s) == ReadInteger(s)
  {
    if p == [] {
      assert p + s == s;
    } else {
      assert (p + s)[1..] == p[1..] + s;
      SpacesSkipped(p[1..], s);
    }
  }

  /** A number may have spaces in front, a sign and leading zeros. */
  lemma NumbersAccepted(p: string, zeros: nat, n: nat)
    requires forall k | 0 <= k < |p| :: IsSpace(p[k])
    ensures var d, i: int := seq(zeros, _ => '0') + IntegerText(n), n;
            && ReadInteger(p + d) == Some(i) && ReadInteger(p + ("+" + d)) == Some(i)
            && ReadInteger(p + ("-" + d)) == Some(-i)
  {
    hide Digits, Decimal, ReadInteger, IsSpace;
    var d := seq(zeros, _ => '0') + IntegerText(n);
    SpacesSkipped(p, d);
    SpacesSkipped(p, "+" + d);
    SpacesSkipped(p, "-" + d);
    DecimalDigits(n);
    ZerosRead(zeros, Decimal(n));
    SignsRead(d, n);
  }

  lemma SignsRead(d: string, n: int)
    requires d != [] && Digits(d) == Some(n)
    ensures ReadInteger(d) == Some(n) && ReadInteger("+" + d) == Some(n) && ReadInteger("-" + d) == Some(-n)
  {
    hide Digits;
    DigitsFirst(d);
    assert ("+" + d)[1..] == d && ("-" + d)[1..] == d;
  }

  lemma DigitsFirst(d: string)
    requires d != [] && Digits(d).Some?
    ensures IsDigit(d[0])
  {
    DigitsSome(d);
  }

  lemma {:induction false} ZerosRead(zeros: nat, d: string)
    ensures Digits(seq(zeros, _ => '0') + d) == Digits(d)
    decreases |d|
  {
    var z: string := seq(zeros, _ => '0');
    if d == [] {
      assert z + d == z;
      ZerosNothing(zeros);
    } else {
      assert (z + d)[..|z + d| - 1] == z + d[..|d| - 1];
      ZerosRead(zeros, d[..|d| - 1]);
    }
  }

  lemma {:induction false} ZerosNothing(zeros: nat)
    ensures Digits(seq(zeros, _ => '0')) == Some(0)
  {
    var z: string := seq(zeros, _ => '0');
    if zeros > 0 {
      assert z[..zeros - 1] == seq(zeros - 1, _ => '0');
      ZerosNothing(zeros - 1);
    }
  }

  /** Nothing, a sign alone, or any other character makes it none. */
  lemma OthersRefused(s: string)
    requires s == [] || !IsSpace(s[0])
    ensures var d := if s != [] && (s[0] == '-' || s[0] == '+') then s[1..] else s;
            ReadInteger(s) == None <==> d == [] || exists k | 0 <= k < |d| :: !IsDigit(d[k])
  {
    hide Digits;
    var d := if s != [] && (s[0] == '-' || s[0] == '+') then s[1..] else s;
    DigitsSome(d);
  }

  // ---------- what is printed ----------

  /** The status is 1 for null and 0 otherwise; numbers are printed in decimal and strings as they are. */
  lemma Reported(i: int, s: string)
    ensures Report(None) == None
    ensures Report(Some(Integer(i))) == Some((IntegerText(i), if i == 0 then 1 else 0))
    ensures Report(Some(Text(s))) == Some((s, if s == "" || s == "0" then 1 else 0))
  {
  }

  lemma NumberLeaf(a: int)
    ensures !NeedsQuote(IntegerText(a)) && Print(Leaf(IntegerText(a)), 6) == [IntegerText(a)]
  {
    hide Decimal;
    var t := IntegerText(a);
    if a >= 0 { assert IsDigit(t[0]); } else { assert t[0] == '-'; }
  }

  lemma NumberPrinted(a: int, k: nat)
    requires k <= 6
    ensures Print(Leaf(IntegerText(a)), k) == [IntegerText(a)]
  {
    hide IntegerText;
    NumberLeaf(a);
  }

  /** Two numbers with an operator of arithmetic between them: what expr prints, and its status. */
  lemma TwoNumbers(op: Op, a: int, b: int, c: int, m: Matcher)
    requires 3 <= LevelOf(op) <= 4 && Gives(op, a, b, c)
    ensures var e := Binary(op, Leaf(IntegerText(a)), Leaf(IntegerText(b)));
            && Print(e, 0) == [IntegerText(a), Token(op), IntegerText(b)]
            && Report(Meaning(e, m)) == Some((IntegerText(c), if c == 0 then 1 else 0))
  {
    hide IntegerText, Calculate;
    NumberPrinted(a, LevelOf(op));
    NumberPrinted(b, LevelOf(op) + 1);
    TextsCount(op, a, b);
    ApplyArithmetic(op, Text(IntegerText(a)), Text(IntegerText(b)), m);
  }

  /** The operators as they are written. */
  lemma Tokens()
    ensures Token(Or) == "|" && Token(And) == "&" && Token(Colon) == ":"
    ensures Token(Less) == "<" && Token(LessEqual) == "<=" && Token(Equal) == "=" && Token(EqualEqual) == "=="
    ensures Token(NotEqual) == "!=" && Token(MoreEqual) == ">=" && Token(More) == ">"
    ensures Token(Plus) == "+" && Token(Minus) == "-"
    ensures Token(Times) == "*" && Token(Divided) == "/" && Token(Modulo) == "%"
  {
  }

  lemma BinaryPrinted(op: Op, l: Tree, r: Tree, k: nat)
    requires k <= LevelOf(op)
    ensures Print(Binary(op, l, r), k) == Print(l, LevelOf(op)) + [Token(op)] + Print(r, LevelOf(op) + 1)
  {
    hide Token, LevelOf;
  }

  /** Without parentheses an operator that binds more tightly is done first, and the left one of two of a level. */
  lemma PrecedencePrinted(op: Op, op': Op, a: int, b: int, c: int)
    ensures var x, y, z := Leaf(IntegerText(a)), Leaf(IntegerText(b)), Leaf(IntegerText(c));
            Print(if LevelOf(op) < LevelOf(op') then Binary(op, x, Binary(op', y, z))
                  else Binary(op', Binary(op, x, y), z), 0)
            == [IntegerText(a), Token(op), IntegerText(b), Token(op'), IntegerText(c)]
  {
    hide IntegerText, Token, LevelOf, Print;
    var x, y, z := Leaf(IntegerText(a)), Leaf(IntegerText(b)), Leaf(IntegerText(c));
    var k, k' := LevelOf(op), LevelOf(op');
    NumberPrinted(a, k);
    NumberPrinted(b, k + 1);
    NumberPrinted(b, k');
    NumberPrinted(c, k' + 1);
    if k < k' {
      BinaryPrinted(op, x, Binary(op', y, z), 0);
      BinaryPrinted(op', y, z, k + 1);
    } else {
      BinaryPrinted(op', Binary(op, x, y), z, 0);
      BinaryPrinted(op, x, y, k');
    }
  }

  /** How tightly each operator binds: the bar least, the colon most. */
  lemma Levels(op: Op)
    ensures LevelOf(op) == if op.Or? then 0 else if op.And? then 1 else if op.Plus? || op.Minus? then 3
                           else if op.Times? || op.Divided? || op.Modulo? then 4 else if op.Colon? then 5 else 2
  {
  }
}
