/** The values of expr and what its operators and keywords make of them. */
module ExprValues {
  import opened Options

  datatype Value = Integer(i: int) | Text(s: string)

  datatype Op = Or | And | Less | LessEqual | Equal | EqualEqual | NotEqual | MoreEqual | More
    | Plus | Minus | Times | Divided | Modulo | Colon

  /** What matching a string against a pattern gives, if the pattern can be compiled. */
  type Matcher = (string, string) -> Option<Value>

  // ---------- numbers and strings ----------

  predicate IsDigit(c: char)
  {
    '0' <= c <= '9'
  }

  predicate IsSpace(c: char)
  {
    c == ' ' || 9 as char <= c <= 13 as char
  }

  function Decimal(n: nat): (s: string)
    ensures s != [] && forall k | 0 <= k < |s| :: IsDigit(s[k])
  {
    if n < 10 then [(n + 48) as char] else Decimal(n / 10) + [(n % 10 + 48) as char]
  }

  function IntegerText(i: int): string
  {
    if i < 0 then "-" + Decimal(-i) else Decimal(i)
  }

  function Digits(s: string): Option<nat>
  {
    if s == [] then Some(0)
    else
      var n := Digits(s[..|s| - 1]);
      var c := s[|s| - 1];
      if n == None || !IsDigit(c) then None else Some(10 * n.value + (c as int - 48))
  }

  function Signed(negative: bool, n: int): int
  {
    if negative then -n else n
  }

  /** strtol on a whole string: spaces, a sign, at least one digit and nothing else. */
  function ReadInteger(s: string): Option<int>
  {
    if s == [] then None
    else if IsSpace(s[0]) then ReadInteger(s[1..])
    else
      var digits := if s[0] == '-' || s[0] == '+' then s[1..] else s;
      var n := Digits(digits);
      if digits == [] || n == None then None else Some(Signed(s[0] == '-', n.value))
  }

  lemma {:induction false} DecimalDigits(n: nat)
    ensures Digits(Decimal(n)) == Some(n)
  {
    if n < 10 {
      assert Digits([]) == Some(0);
      assert Decimal(n)[..0] == [];
    } else {
      DecimalDigits(n / 10);
      assert Decimal(n)[..|Decimal(n)| - 1] == Decimal(n / 10);
    }
  }

  /** Writing a number and reading it back. */
  lemma IntegerTextReads(i: int)
    ensures ReadInteger(IntegerText(i)) == Some(i)
  {
    hide Digits, Decimal;
    if i < 0 {
      DecimalDigits(-i);
      assert IntegerText(i)[1..] == Decimal(-i);
    } else {
      DecimalDigits(i);
    }
  }

  /** tostring. */
  function ToText(v: Value): string
  {
    match v
    case Integer(i) => IntegerText(i)
    case Text(s) => s
  }

  /** toarith: what it leaves of the value; a string that is no number is left as it is. */
  function ToInteger(v: Value): Value
  {
    match v
    case Integer(_) => v
    case Text(s) => if ReadInteger(s).Some? then Integer(ReadInteger(s).value) else v
  }

  /** null. */
  predicate Null(v: Value)
  {
    match v
    case Integer(i) => i == 0
    case Text(s) => s == "" || s == "0"
  }

  // ---------- operators ----------

  /** C's division, towards zero. */
  function Quotient(a: int, b: int): int
    requires b != 0
  {
    if a >= 0 then a / b else -(-a / b)
  }

  function Remainder(a: int, b: int): int
    requires b != 0
  {
    a - b * Quotient(a, b)
  }

  /** strcmp's sign. */
  function CompareText(a: string, b: string): int
    decreases |a|
  {
    if a == [] then (if b == [] then 0 else -1)
    else if b == [] then 1
    else if a[0] != b[0] then (if a[0] < b[0] then -1 else 1)
    else CompareText(a[1..], b[1..])
  }

  /** Numbers are compared as numbers, anything else as strings. */
  function Difference(l: Value, r: Value): int
  {
    if l.Integer? && r.Integer? then l.i - r.i else CompareText(ToText(l), ToText(r))
  }

  predicate Holds(op: Op, d: int)
  {
    match op
    case Less => d < 0
    case LessEqual => d <= 0
    case Equal => d == 0
    case EqualEqual => d == 0
    case NotEqual => d != 0
    case More => d > 0
    case _ => d >= 0
  }

  function Compare(op: Op, l: Value, r: Value): Value
  {
    Integer(if Holds(op, Difference(ToInteger(l), ToInteger(r))) then 1 else 0)
  }

  function Calculate(op: Op, l: Value, r: Value): Option<Value>
  {
    var a, b := ToInteger(l), ToInteger(r);
    if a.Text? || b.Text? then None
    else match op
    case Plus => Some(Integer(a.i + b.i))
    case Minus => Some(Integer(a.i - b.i))
    case Times => Some(Integer(a.i * b.i))
    case Divided => if b.i == 0 then None else Some(Integer(Quotient(a.i, b.i)))
    case _ => if b.i == 0 then None else Some(Integer(Remainder(a.i, b.i)))
  }

  /** The value of an operator's two operands; None where the source gives up. */
  function Apply(op: Op, l: Value, r: Value, m: Matcher): Option<Value>
  {
    match op
    case Or => Some(if Null(l) then r else l)
    case And => Some(if Null(l) || Null(r) then Integer(0) else l)
    case Colon => m(ToText(l), ToText(r))
    case Plus => Calculate(op, l, r)
    case Minus => Calculate(op, l, r)
    case Times => Calculate(op, l, r)
    case Divided => Calculate(op, l, r)
    case Modulo => Calculate(op, l, r)
    case _ => Some(Compare(op, l, r))
  }

  // ---------- keywords ----------

  /** Where the first character of s that is in chars is, counted from 1, or 0. */
  function IndexOf(s: string, chars: string, i: nat): nat
    requires i <= |s|
    decreases |s| - i
  {
    if i == |s| then 0 else if s[i] in chars then i + 1 else IndexOf(s, chars, i + 1)
  }

  /** A number as a parameter of type int: its 32 low bits, signed. */
  function Int32(x: int): int
  {
    var u := x % 0x1_0000_0000;
    if u >= 0x8000_0000 then u - 0x1_0000_0000 else u
  }

  /** xstrndup: below zero, n is a very large number to strndup. */
  function Duplicate(s: string, n: int): string
  {
    if n < 0 || n >= |s| then s else s[..n]
  }

  function Substring(s: string, at: Value, length: Value): string
  {
    var a, n := ToInteger(at), ToInteger(length);
    if a.Text? || n.Text? || a.i > |s| || a.i <= 0 || n.i <= 0 then ""
    else Duplicate(s[a.i - 1..], Int32(n.i))
  }

  /** At most n characters of s. */
  function First(s: string, n: nat): string
  {
    if n >= |s| then s else s[..n]
  }

  /** substr gives the length characters from a position on, or what there is of them, if and only if the length fits an
      int, or both it and what is left of it in one are more than there is. */
  lemma SubstringIff(s: string, a: nat, n: nat)
    requires 1 <= a <= |s| && n >= 1
    ensures var rest := |s| - a + 1;
            Substring(s, Integer(a), Integer(n)) == First(s[a - 1..], n) <==>
            Int32(n) == n || (rest <= n && (Int32(n) < 0 || rest <= Int32(n)))
  {
    var t := s[a - 1..];
    assert |Duplicate(t, Int32(n))| == if Int32(n) < 0 || Int32(n) >= |t| then |t| else Int32(n);
  }

  /** 2^32 characters are none. */
  lemma SubstringOfTooMany(s: string)
    requires s != ""
    ensures Substring(s, Integer(1), Integer(0x1_0000_0000)) == "" && First(s, 0x1_0000_0000) != ""
  {
  }
}
