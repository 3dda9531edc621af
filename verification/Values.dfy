/** Values of expressions: integers and texts that are read as each other, and the operators
    on them. An operation that C leaves undefined has no result. */
module Values {
  import opened Wrappers
  import opened CStrings

  type Int32 = v: int | IsInt(v)

  /** The result of an expression; Null is a missing one. */
  datatype Value = Null | Int(v: Int32) | Str(s: string)

  datatype Op = Plus | Minus | Mul | Div | Mod | Or | And | Equal | NotEqual | Lth | Le | Ge | Gt
  {
    predicate Compares() {
      Equal? || NotEqual? || Lth? || Le? || Ge? || Gt?
    }
  }

  /** oris_expr_as_int */
  function AsInt(x: Value): (r: Option<int>)
    ensures r.Some? ==> IsInt(r.value)
  {
    match x
    case Null => None
    case Int(v) => Some(v)
    case Str(s) => StrToInt(s)
  }

  /** oris_expr_as_string */
  function AsString(x: Value): Option<string> {
    match x
    case Null => None
    case Int(v) => Some(Decimal(v))
    case Str(s) => Some(s)
  }

  /** The integer a text is read as. */
  function Number(text: Option<string>): Option<int> {
    match text case None => None case Some(s) => StrToInt(s)
  }

  /** An integer and the text of its decimal form are read alike: whatever a value is, its
      text decides what integer it is. */
  lemma TextDecides(x: Value)
    ensures AsInt(x) == Number(AsString(x))
  {
    match x
    case Int(v) => DecimalReadsBack(v);
    case _ =>
  }

  /** Division of C, which truncates. */
  function Quotient(m: int, n: int): int
    requires n != 0
  {
    if m >= 0 then m / n else -(-m / n)
  }

  function Remainder(m: int, n: int): int
    requires n != 0
  {
    m - Quotient(m, n) * n
  }

  function Checked(v: int): (r: Option<Value>)
    ensures r.Some? <==> IsInt(v)
    ensures r.Some? ==> r.value == Int(v)
  {
    if IsInt(v) then Some(Int(v)) else None
  }

  function Truth(b: bool): Value {
    Int(if b then 1 else 0)
  }

  /** The outcome of a comparison operator, given the sign of the comparison. */
  predicate Holds(op: Op, sign: int)
    requires op.Compares()
  {
    match op
    case Equal => sign == 0
    case NotEqual => sign != 0
    case Lth => sign < 0
    case Le => sign <= 0
    case Ge => sign >= 0
    case Gt => sign > 0
  }

  /** strcmp */
  function Compare(s: string, t: string): int {
    if s == t then 0 else if Greater(s, t) then 1 else -1
  }

  /** An operator on two integers of 32 bits. */
  function NumberOp(op: Op, m: int, n: int): Option<Value> {
    match op
    case Plus => Checked(m + n)
    case Minus => Checked(m - n)
    case Mul => Checked(m * n)
    case Div => if n == 0 then None else Checked(Quotient(m, n))
    case Mod => if n == 0 || !IsInt(Quotient(m, n)) then None else Checked(Remainder(m, n))
    case Or => Some(Truth(m != 0 || n != 0))
    case And => Some(Truth(m != 0 && n != 0))
    case _ => Some(Truth(Holds(op, m - n)))
  }

  /** An operator on two texts that are not both integers; arithmetic leaves its result
      unset. */
  function TextOp(op: Op, s: string, t: string): Option<Value> {
    if op == Plus then Some(Str(s + t))
    else if op.Compares() then Some(Truth(Holds(op, Compare(s, t))))
    else None
  }

  /** oris_expr_eval_binary_op */
  function BinaryOp(op: Op, a: Value, b: Value): Option<Value> {
    match (AsInt(a), AsInt(b))
    case (Some(m), Some(n)) => NumberOp(op, m, n)
    case _ => if a.Null? || b.Null? then None else TextOp(op, AsString(a).value, AsString(b).value)
  }

  /** Operands with the same texts have the same result: whether an operand is an integer or
      its decimal form cannot be seen. */
  lemma TagsUnseenByOperators(op: Op, a: Value, a': Value, b: Value, b': Value)
    requires AsString(a) == AsString(a') && AsString(b) == AsString(b')
    ensures BinaryOp(op, a, b) == BinaryOp(op, a', b')
  {
    TextDecides(a);
    TextDecides(a');
    TextDecides(b);
    TextDecides(b');
  }

  // ----- what the operators compute

  /** Operators on two operands that read as integers m and n. PLUS, MINUS and MUL have a result if
      it is in range. */
  lemma OnIntegers(a: Value, b: Value, m: int, n: int)
    requires AsInt(a) == Some(m) && AsInt(b) == Some(n)
    ensures BinaryOp(Plus, a, b) == if IsInt(m + n) then Some(Int(m + n)) else None
    ensures BinaryOp(Minus, a, b) == if IsInt(m - n) then Some(Int(m - n)) else None
    ensures BinaryOp(Mul, a, b) == if IsInt(m * n) then Some(Int(m * n)) else None
    ensures BinaryOp(Or, a, b) == Some(Int(if m == 0 && n == 0 then 0 else 1))
    ensures BinaryOp(And, a, b) == Some(Int(if m == 0 || n == 0 then 0 else 1))
  {
  }

  /** What MINUS takes away PLUS puts back. */
  lemma PlusUndoesMinus(a: Value, b: Value, r: Value)
    requires AsInt(a).Some? && AsInt(b).Some? && BinaryOp(Minus, a, b) == Some(r)
    ensures BinaryOp(Plus, r, b) == Some(Int(AsInt(a).value))
  {
    OnIntegers(a, b, AsInt(a).value, AsInt(b).value);
  }

  /** MOD has a result if and only if DIV has one. */
  lemma ModDefined(a: Value, b: Value)
    requires AsInt(a).Some? && AsInt(b).Some?
    ensures BinaryOp(Mod, a, b).Some? <==> BinaryOp(Div, a, b).Some?
  {
    hide Quotient, AsInt;
    var m, n := AsInt(a).value, AsInt(b).value;
    if n != 0 && IsInt(Quotient(m, n)) {
      ProductOfQuotient(m, n);
      InRange(a);
    }
  }

  lemma InRange(a: Value)
    ensures AsInt(a).Some? ==> IsInt(AsInt(a).value)
  {
  }

  /** Comparisons of integers, whose outcome is 1 or 0. */
  lemma CompareIntegers(a: Value, b: Value, m: int, n: int)
    requires AsInt(a) == Some(m) && AsInt(b) == Some(n)
    ensures BinaryOp(Equal, a, b) == Some(Int(if m == n then 1 else 0))
    ensures BinaryOp(NotEqual, a, b) == Some(Int(if m == n then 0 else 1))
    ensures BinaryOp(Lth, a, b) == Some(Int(if m < n then 1 else 0))
    ensures BinaryOp(Le, a, b) == Some(Int(if m <= n then 1 else 0))
    ensures BinaryOp(Ge, a, b) == Some(Int(if m >= n then 1 else 0))
    ensures BinaryOp(Gt, a, b) == Some(Int(if m > n then 1 else 0))
  {
  }

  /** Operators on the texts s and t of two operands that are not both integers: PLUS joins them,
      and the others have no result. */
  lemma OnTexts(a: Value, b: Value, s: string, t: string)
    requires AsString(a) == Some(s) && AsString(b) == Some(t) && (AsInt(a).None? || AsInt(b).None?)
    ensures BinaryOp(Plus, a, b) == Some(Str(s + t))
    ensures BinaryOp(Minus, a, b) == BinaryOp(Mul, a, b) == BinaryOp(Div, a, b) == None
    ensures BinaryOp(Mod, a, b) == BinaryOp(Or, a, b) == BinaryOp(And, a, b) == None
  {
    hide AsInt;
  }

  /** Comparisons of such operands go by strcmp. */
  lemma CompareTexts(a: Value, b: Value, s: string, t: string)
    requires AsString(a) == Some(s) && AsString(b) == Some(t) && (AsInt(a).None? || AsInt(b).None?)
    ensures BinaryOp(Equal, a, b) == Some(Int(if s == t then 1 else 0))
    ensures BinaryOp(NotEqual, a, b) == Some(Int(if s == t then 0 else 1))
    ensures BinaryOp(Lth, a, b) == Some(Int(if Greater(t, s) then 1 else 0))
    ensures BinaryOp(Le, a, b) == Some(Int(if Greater(s, t) then 0 else 1))
    ensures BinaryOp(Ge, a, b) == Some(Int(if Greater(t, s) then 0 else 1))
    ensures BinaryOp(Gt, a, b) == Some(Int(if Greater(s, t) then 1 else 0))
  {
    GreaterOneWay(s, t);
    TextsKnown(a);
    TextsKnown(b);
    hide Greater, AsInt, AsString;
  }

  /** A missing operand leaves every operator without a result. */
  lemma OnMissing(op: Op, a: Value)
    ensures BinaryOp(op, Null, a) == BinaryOp(op, a, Null) == None
  {
  }

  // ----- division

  lemma EuclidParts(k: nat, n: int)
    requires n != 0
    ensures 0 <= (k / n) * n <= k && k - (k / n) * n < Abs(n)
  {
  }

  lemma NegatedProduct(q: int, n: int)
    ensures -q * n == -(q * n)
  {
  }

  lemma ProductOfQuotient(m: int, n: int)
    requires n != 0
    ensures m >= 0 ==> 0 <= Quotient(m, n) * n <= m
    ensures m < 0 ==> m <= Quotient(m, n) * n <= 0
    ensures 0 - Abs(n) < Remainder(m, n) < Abs(n)
  {
    var k := if m >= 0 then m else -m;
    EuclidParts(k, n);
    NegatedProduct(k / n, n);
  }

  function Abs(n: int): nat {
    if n < 0 then -n else n
  }

  /** Whenever DIV and MOD have results, q and r, q MUL n PLUS r gives the dividend back, and r
      is nearer to 0 than n and on the dividend's side of it. */
  lemma DivisionLaw(a: Value, b: Value, q: Value, r: Value)
    requires AsInt(a).Some? && AsInt(b).Some?
    requires BinaryOp(Div, a, b) == Some(q) && BinaryOp(Mod, a, b) == Some(r)
    ensures BinaryOp(Mul, q, b).Some?
    ensures BinaryOp(Plus, BinaryOp(Mul, q, b).value, r) == Some(Int(AsInt(a).value))
    ensures r.Int? && Abs(r.v) < Abs(AsInt(b).value) && (r.v == 0 || (r.v > 0 <==> AsInt(a).value > 0))
  {
    ProductOfQuotient(AsInt(a).value, AsInt(b).value);
  }

  /** DIV of two integers has a result unless the divisor is 0 or the quotient is too big,
      which it is in one case. */
  lemma DivisionDefined(a: Value, b: Value)
    requires AsInt(a).Some? && AsInt(b).Some?
    ensures BinaryOp(Div, a, b).Some? <==> AsInt(b).value != 0 && !(AsInt(a).value == INT_MIN && AsInt(b).value == -1)
  {
    var m, n := AsInt(a).value, AsInt(b).value;
    if n != 0 {
      QuotientSize(m, n);
    }
  }

  lemma QuotientSize(m: int, n: int)
    requires n != 0
    ensures Abs(Quotient(m, n)) <= Abs(m)
    ensures m < 0 && n != -1 ==> Quotient(m, n) < -m
    ensures n == -1 ==> Quotient(m, n) == -m
  {
    ProductOfQuotient(m, n);
    ProductGrows(Quotient(m, n), n, m);
  }

  lemma ProductGrows(q: int, n: int, m: int)
    requires n != 0 && (if m >= 0 then 0 <= q * n <= m else m <= q * n <= 0) && Abs(m - q * n) < Abs(n)
    ensures Abs(q) <= Abs(m) && (m < 0 && n != -1 ==> q < -m) && (n == -1 ==> q == -m)
  {
    if q > 0 && n > 0 {
      Grows(q, n, 1);
    } else if q > 0 && n < 0 {
      Grows(q, -n, if n == -1 then 1 else 2);
      NegatedProduct(q, -n);
    } else if q < 0 && n > 0 {
      Grows(-q, n, 1);
      NegatedProduct(q, n);
    } else if q < 0 && n < 0 {
      Grows(-q, -n, 1);
    }
  }

  lemma Grows(q: nat, n: nat, k: nat)
    requires n >= k
    ensures q * n >= q * k
  {
  }

  // ----- comparison

  lemma {:induction false} GreaterOneWay(s: string, t: string)
    ensures s == t || (Greater(s, t) <==> !Greater(t, s))
    ensures s == t ==> !Greater(s, t)
  {
    if s != "" && t != "" && s[0] == t[0] {
      GreaterOneWay(s[1..], t[1..]);
      assert s == [s[0]] + s[1..] && t == [t[0]] + t[1..];
    }
  }

  function Mirrored(op: Op): Op
    requires op.Compares()
  {
    match op
    case Lth => Gt
    case Le => Ge
    case Ge => Le
    case Gt => Lth
    case _ => op
  }

  function Negated(op: Op): Op
    requires op.Compares()
  {
    match op
    case Equal => NotEqual
    case NotEqual => Equal
    case Lth => Ge
    case Le => Gt
    case Ge => Lth
    case Gt => Le
  }

  /** Comparisons of any two operands agree with each other: seen from the other side, and with
      their opposites. */
  lemma ComparisonsAgree(op: Op, a: Value, b: Value)
    requires op.Compares() && !a.Null? && !b.Null?
    ensures BinaryOp(op, a, b).Some?
    ensures BinaryOp(op, a, b) == BinaryOp(Mirrored(op), b, a)
    ensures BinaryOp(op, a, b) == Some(Truth(true)) <==> BinaryOp(Negated(op), a, b) == Some(Truth(false))
  {
    hide BinaryOp, Mirrored, Negated;
    var sign := SignOf(a, b);
    CompareFlips(a, b);
    SignsAgree(op, sign);
    ComparisonIs(op, a, b);
    ComparisonIs(Mirrored(op), b, a);
    ComparisonIs(Negated(op), a, b);
  }

  /** The sign of a comparison: of integers, or of texts. */
  function SignOf(a: Value, b: Value): int
    requires !a.Null? && !b.Null?
  {
    match (AsInt(a), AsInt(b))
    case (Some(m), Some(n)) => m - n
    case _ => Compare(AsString(a).value, AsString(b).value)
  }

  lemma ComparisonIs(op: Op, a: Value, b: Value)
    requires op.Compares() && !a.Null? && !b.Null?
    ensures BinaryOp(op, a, b) == Some(Truth(Holds(op, SignOf(a, b))))
  {
    hide AsInt, Compare, Holds;
  }

  lemma TextsKnown(a: Value)
    ensures a.Null? <==> AsString(a).None?
    ensures a.Null? ==> AsInt(a).None?
  {
  }

  lemma CompareFlips(a: Value, b: Value)
    requires !a.Null? && !b.Null?
    ensures SignOf(b, a) == -SignOf(a, b)
  {
    hide AsInt;
    GreaterOneWay(AsString(a).value, AsString(b).value);
  }

  lemma SignsAgree(op: Op, sign: int)
    requires op.Compares()
    ensures Mirrored(op).Compares() && Negated(op).Compares()
    ensures Holds(op, sign) == Holds(Mirrored(op), -sign) == !Holds(Negated(op), sign)
    ensures Mirrored(op) != Plus && Negated(op) != Plus
  {
  }

  // ----- is LTH transitive?

  /** a LTH b */
  predicate Less(a: Value, b: Value) {
    BinaryOp(Lth, a, b) == Some(Truth(true))
  }

  /** LTH compares two integers as integers, and any other two operands as texts. */
  lemma LessMeans(a: Value, b: Value)
    requires !a.Null? && !b.Null?
    ensures AsInt(a).Some? && AsInt(b).Some? ==> (Less(a, b) <==> AsInt(a).value < AsInt(b).value)
    ensures AsInt(a).None? || AsInt(b).None? ==> (Less(a, b) <==> Greater(AsString(b).value, AsString(a).value))
  {
    hide Greater, AsInt;
    GreaterOneWay(AsString(a).value, AsString(b).value);
  }

  lemma {:induction false} GreaterTransitive(s: string, t: string, u: string)
    requires Greater(s, t) && Greater(t, u)
    ensures Greater(s, u)
  {
    if u != "" && s[0] == t[0] == u[0] {
      GreaterTransitive(s[1..], t[1..], u[1..]);
    }
  }

  predicate OneIsText(a: Value, b: Value) {
    AsInt(a).None? || AsInt(b).None?
  }

  /** Transitivity holds for three operands that are all integers, or of which at most one is. */
  lemma LessTransitive(a: Value, b: Value, c: Value)
    requires !a.Null? && !b.Null? && !c.Null? && Less(a, b) && Less(b, c)
    requires (AsInt(a).Some? && AsInt(b).Some? && AsInt(c).Some?)
      || (OneIsText(a, b) && OneIsText(b, c) && OneIsText(a, c))
    ensures Less(a, c)
  {
    hide Less, AsInt, AsString, Greater;
    LessMeans(a, b);
    LessMeans(b, c);
    LessMeans(a, c);
    if OneIsText(a, c) {
      TextsKnown(a);
      TextsKnown(b);
      TextsKnown(c);
      GreaterTransitive(AsString(c).value, AsString(b).value, AsString(a).value);
    }
  }

  // ----- a text between two integers

  const MARK: char := 1 as char

  /** The text of an integer has no characters below white space, signs and digits. */
  lemma IntegerChars(s: string)
    requires StrToInt(s).Some?
    ensures forall i :: 0 <= i < |s| ==> s[i] > MARK
  {
    if s != "" {
      ReadNumeral(s);
      var space, sign, digits :| Numeral(s, space, sign, digits) && StrToInt(s) == Some(Denoted(sign, digits));
      NumeralChars(s, space, sign, digits);
    }
  }

  lemma NumeralChars(s: string, space: string, sign: string, digits: string)
    requires Numeral(s, space, sign, digits)
    ensures forall i :: 0 <= i < |s| ==> s[i] > MARK
  {
    forall i | 0 <= i < |s|
      ensures s[i] > MARK
    {
      if i < |space| {
        assert s[i] == space[i];
      } else if i >= |space| + |sign| {
        assert s[i] == digits[i - |space| - |sign|];
      }
    }
  }

  lemma {:induction false} MarkBetween(u: string, s: string)
    requires Greater(u, s) && forall i :: 0 <= i < |u| ==> u[i] > MARK
    ensures Greater(u, s + [MARK]) && Greater(s + [MARK], s)
  {
    if s != "" {
      if u[0] == s[0] {
        MarkBetween(u[1..], s[1..]);
      } else {
        MarkLast(s);
      }
      assert (s + [MARK])[1..] == s[1..] + [MARK];
    }
  }

  lemma {:induction false} MarkLast(s: string)
    ensures Greater(s + [MARK], s)
  {
    if s != "" {
      MarkLast(s[1..]);
      assert (s + [MARK])[1..] == s[1..] + [MARK];
    }
  }

  lemma MarkedIsText(s: string)
    ensures StrToInt(s + [MARK]).None?
  {
    var t := s + [MARK];
    assert t[|s|] == MARK;
    if StrToInt(t).Some? {
      IntegerChars(t);
      assert false;
    }
  }

  /** Between two integers a and c, of which a is not the lesser, there is an operand b such that
      a LTH b and b LTH c, if and only if their texts are in the other order. */
  lemma BetweenExact(a: Value, c: Value)
    requires AsInt(a).Some? && AsInt(c).Some? && !Less(a, c)
    ensures (exists b: Value :: !b.Null? && Less(a, b) && Less(b, c)) <==>
      Greater(AsString(c).value, AsString(a).value)
  {
    hide Less, AsInt, AsString, Greater, StrToInt;
    TextsKnown(a);
    TextsKnown(c);
    LessMeans(a, c);
    var s, u := AsString(a).value, AsString(c).value;
    forall b: Value | !b.Null? && Less(a, b) && Less(b, c)
      ensures Greater(u, s)
    {
      LessMeans(a, b);
      LessMeans(b, c);
      TextsKnown(b);
      GreaterTransitive(u, AsString(b).value, s);
    }
    if Greater(u, s) {
      var b := Str(s + [MARK]);
      BetweenIsText(a, c, b);
      assert Less(a, b) && Less(b, c);
    }
  }

  lemma BetweenIsText(a: Value, c: Value, b: Value)
    requires !a.Null? && !c.Null? && AsInt(c).Some?
    requires Greater(AsString(c).value, AsString(a).value) && b == Str(AsString(a).value + [MARK])
    ensures Less(a, b) && Less(b, c)
  {
    hide Less, Greater, StrToInt;
    var s, u := AsString(a).value, AsString(c).value;
    TextDecides(c);
    IntegerChars(u);
    MarkBetween(u, s);
    MarkedIsText(s);
    LessMeans(a, b);
    LessMeans(b, c);
  }

  // ----- where it is transitive

  /** The operands: some integers, and every text that is none. */
  ghost predicate Among(ints: iset<Value>, x: Value) {
    x in ints || (x.Str? && StrToInt(x.s).None?)
  }

  ghost predicate Transitive(ints: iset<Value>) {
    forall a, b, c :: Among(ints, a) && Among(ints, b) && Among(ints, c) && Less(a, b) && Less(b, c) ==> Less(a, c)
  }

  /** No two of the integers have their texts in the other order. */
  ghost predicate TextsInOrder(ints: iset<Value>) {
    forall a, c :: a in ints && c in ints && !Less(a, c) ==> !TextLess(a, c)
  }

  predicate TextLess(a: Value, c: Value) {
    AsString(a).Some? && AsString(c).Some? && Greater(AsString(c).value, AsString(a).value)
  }

  /** Two integers p and q whose texts are in the other order are behind every failure. */
  lemma FailureShows(a: Value, b: Value, c: Value)
    requires !a.Null? && !b.Null? && !c.Null? && Less(a, b) && Less(b, c) && !Less(a, c)
    ensures || (AsInt(a).Some? && AsInt(c).Some? && TextLess(a, c))
            || (AsInt(a).Some? && AsInt(b).Some? && !Less(b, a) && TextLess(b, a))
            || (AsInt(b).Some? && AsInt(c).Some? && !Less(c, b) && TextLess(c, b))
  {
    hide Less, AsInt, AsString, Greater;
    TextsKnown(a);
    TextsKnown(b);
    TextsKnown(c);
    LessMeans(a, b);
    LessMeans(b, c);
    LessMeans(a, c);
    LessMeans(b, a);
    LessMeans(c, b);
    var s, t, u := AsString(a).value, AsString(b).value, AsString(c).value;
    TextCases(s, t, u);
  }

  lemma TextCases(s: string, t: string, u: string)
    ensures Greater(t, s) && Greater(u, t) ==> Greater(u, s)
    ensures Greater(u, t) && !Greater(u, s) ==> Greater(s, t)
    ensures Greater(t, s) && !Greater(u, s) ==> Greater(t, u)
  {
    hide Greater;
    GreaterOneWay(u, s);
    if Greater(t, s) && Greater(u, t) {
      GreaterTransitive(u, t, s);
    }
    if Greater(s, u) && Greater(u, t) {
      GreaterTransitive(s, u, t);
    }
    if Greater(t, s) && Greater(s, u) {
      GreaterTransitive(t, s, u);
    }
  }

  lemma AmongKnown(ints: iset<Value>, x: Value)
    requires (forall y :: y in ints ==> AsInt(y).Some?) && Among(ints, x)
    ensures !x.Null? && (x in ints <==> AsInt(x).Some?)
  {
    hide StrToInt;
  }

  /** LTH is transitive on a set of integers together with all texts that are none if and only
      if the texts of the integers are in no other order than the integers. */
  lemma TransitiveExactly(ints: iset<Value>)
    requires forall x :: x in ints ==> AsInt(x).Some?
    ensures Transitive(ints) <==> TextsInOrder(ints)
  {
    hide Less, AsInt, AsString, Greater, StrToInt;
    forall x | Among(ints, x)
      ensures !x.Null? && (x in ints <==> AsInt(x).Some?)
    {
      AmongKnown(ints, x);
    }
    if TextsInOrder(ints) {
      forall a, b, c | Among(ints, a) && Among(ints, b) && Among(ints, c) && Less(a, b) && Less(b, c)
        ensures Less(a, c)
      {
        if !Less(a, c) {
          FailureShows(a, b, c);
        }
      }
    } else {
      var a, c :| a in ints && c in ints && !Less(a, c) && TextLess(a, c);
      var b := Str(AsString(a).value + [MARK]);
      MarkedIsText(AsString(a).value);
      BetweenIsText(a, c, b);
    }
  }

  /** It is not on all operands: a circle. */
  lemma ComparisonCycle()
    ensures Less(Int(9), Int(10)) && Less(Int(10), Str("1a")) && Less(Str("1a"), Int(9))
  {
  }
}
