/** Character classes, comparisons and numbers of C strings, in the C locale. */
module CStrings {
  import opened Wrappers

  const NUL: char := '\0'
  const INT_MAX: int := 2147483647
  const INT_MIN: int := -2147483648

  predicate IsInt(v: int) {
    INT_MIN <= v <= INT_MAX
  }

  predicate IsSpace(c: char) {
    c == ' ' || 9 <= c as int <= 13
  }

  predicate IsCntrl(c: char) {
    c as int < 32 || c as int == 127
  }

  predicate IsDigit(c: char) {
    '0' <= c <= '9'
  }

  function ToLower(c: char): char {
    if 'A' <= c <= 'Z' then (c as int + 32) as char else c
  }

  function Lower(s: string): (r: string)
    ensures |r| == |s|
    ensures forall i :: 0 <= i < |s| ==> r[i] == ToLower(s[i])
  {
    if s == "" then "" else [ToLower(s[0])] + Lower(s[1..])
  }

  /** strcasecmp(a, b) == 0 */
  predicate EqIgnoreCase(a: string, b: string) {
    Lower(a) == Lower(b)
  }

  /** strcmp(a, b) > 0 */
  predicate Greater(a: string, b: string) {
    if a == "" then false
    else if b == "" then true
    else if a[0] != b[0] then a[0] > b[0]
    else Greater(a[1..], b[1..])
  }

  /** The index of the first c in s; the length of s if there is none. */
  function FirstAt(s: string, c: char): (r: nat)
    ensures r <= |s| && (r < |s| ==> s[r] == c) && forall i :: 0 <= i < r ==> s[i] != c
  {
    if s == "" || s[0] == c then 0 else 1 + FirstAt(s[1..], c)
  }

  /** strchr */
  function StrChr(s: string, c: char): (r: Option<nat>)
    ensures r.Some? ==> r.value < |s| && s[r.value] == c && c !in s[..r.value]
    ensures r.None? ==> c !in s
  {
    var k := FirstAt(s, c);
    if k < |s| then Some(k) else None
  }

  lemma FirstAtIs(p: string, c: char, rest: string)
    requires c !in p
    ensures FirstAt(p + [c] + rest, c) == |p|
  {
    var s := p + [c] + rest;
    assert s[|p|] == c && forall i :: 0 <= i < |p| ==> s[i] == p[i] && p[i] in p;
  }

  /** The number a string of digits denotes. */
  function NumberOf(s: string): (v: nat)
    requires AllDigits(s)
  {
    if s == "" then 0
    else
      assert IsDigit(s[|s| - 1]);
      NumberOf(s[..|s| - 1]) * 10 + (s[|s| - 1] as int - '0' as int)
  }

  function Digits(n: nat): (r: string)
    ensures r != "" && AllDigits(r)
  {
    var last := ['0' + (n % 10) as char];
    if n < 10 then last else Digits(n / 10) + last
  }

  /** printf's %d */
  function Decimal(v: int): (r: string)
    ensures r != ""
  {
    if v < 0 then "-" + Digits(-v) else Digits(v)
  }

  function SkipSpace(s: string): (r: string)
    ensures r != "" ==> !IsSpace(r[0])
  {
    if s != "" && IsSpace(s[0]) then SkipSpace(s[1..]) else s
  }

  predicate AllDigits(s: string) {
    forall i :: 0 <= i < |s| ==> IsDigit(s[i])
  }

  /** oris_strtoint: white space, an optional sign and digits up to the end of the text; the
      empty text counts as 0. */
  function StrToInt(s: string): (r: Option<int>)
    ensures r.Some? ==> IsInt(r.value)
  {
    if s == "" then Some(0)
    else
      var t := SkipSpace(s);
      var negative := t != "" && t[0] == '-';
      var digits := if t != "" && (t[0] == '-' || t[0] == '+') then t[1..] else t;
      if digits == "" || !AllDigits(digits) then None
      else
        var v := if negative then 0 - NumberOf(digits) else NumberOf(digits);
        if IsInt(v) then Some(v) else None
  }

  lemma {:induction false} ValueDigits(n: nat)
    ensures NumberOf(Digits(n)) == n
  {
    var r, last := Digits(n), '0' + (n % 10) as char;
    assert last as int - '0' as int == n % 10;
    if n >= 10 {
      ValueDigits(n / 10);
      assert r[..|r| - 1] == Digits(n / 10);
    } else {
      assert r == [last];
      assert r[..0] == "";
    }
  }

  /** A number printed in decimal is read back as itself. */
  lemma DecimalReadsBack(v: int)
    requires IsInt(v)
    ensures StrToInt(Decimal(v)) == Some(v)
  {
    var s := Decimal(v);
    ValueDigits(if v < 0 then -v else v);
    if v < 0 {
      assert s[1..] == Digits(-v);
    } else {
      assert IsDigit(s[0]);
    }
  }

  /** A numeral: white space, an optional sign, and digits. */
  ghost predicate Numeral(s: string, space: string, sign: string, digits: string) {
    && s == space + sign + digits
    && (forall i :: 0 <= i < |space| ==> IsSpace(space[i]))
    && (sign == "" || sign == "+" || sign == "-")
    && digits != "" && AllDigits(digits)
  }

  /** The number it denotes. */
  ghost function Denoted(sign: string, digits: string): int
    requires AllDigits(digits)
  {
    if sign == "-" then 0 - NumberOf(digits) else NumberOf(digits)
  }

  lemma {:induction false} SkipSpaceParts(s: string)
    ensures var k := |s| - |SkipSpace(s)|;
      0 <= k <= |s| && s[k..] == SkipSpace(s) && forall i :: 0 <= i < k ==> IsSpace(s[i])
  {
    if s != "" && IsSpace(s[0]) {
      SkipSpaceParts(s[1..]);
    }
  }

  lemma {:induction false} SkipSpaces(space: string, t: string)
    requires (forall i :: 0 <= i < |space| ==> IsSpace(space[i])) && t != "" && !IsSpace(t[0])
    ensures SkipSpace(space + t) == t
  {
    if space == "" {
      assert space + t == t;
    } else {
      SkipSpaces(space[1..], t);
      assert (space + t)[1..] == space[1..] + t;
    }
  }

  lemma NumeralRead(s: string, space: string, sign: string, digits: string)
    requires Numeral(s, space, sign, digits)
    ensures StrToInt(s) == if IsInt(Denoted(sign, digits)) then Some(Denoted(sign, digits)) else None
  {
    hide NumberOf;
    var t := sign + digits;
    assert t[0] == if sign == "" then digits[0] else sign[0];
    assert IsDigit(digits[0]);
    SkipSpaces(space, t);
    assert s == space + t;
    assert t[|sign|..] == digits;
    assert sign == "" ==> t == digits;
  }

  lemma ReadNumeral(s: string)
    requires StrToInt(s).Some? && s != ""
    ensures exists space, sign, digits ::
      Numeral(s, space, sign, digits) && StrToInt(s) == Some(Denoted(sign, digits))
  {
    hide NumberOf, SkipSpace, IsSpace;
    var t := SkipSpace(s);
    var k := |s| - |t|;
    SkipSpaceParts(s);
    var n := if t[0] == '-' || t[0] == '+' then 1 else 0;
    var sign, digits := t[..n], t[n..];
    ReadParts(s, t, sign, digits);
    assert s == s[..k] + t && t == sign + digits;
    assert Numeral(s, s[..k], sign, digits);
  }

  lemma ReadParts(s: string, t: string, sign: string, digits: string)
    requires StrToInt(s).Some? && s != "" && t == SkipSpace(s)
    requires t != "" ==> var n := if t[0] == '-' || t[0] == '+' then 1 else 0; sign == t[..n] && digits == t[n..]
    ensures t != "" && digits != "" && AllDigits(digits) && (sign == "" || sign == "+" || sign == "-")
    ensures StrToInt(s) == Some(Denoted(sign, digits))
  {
    hide NumberOf, SkipSpace, IsSpace;
    assert t[0..] == t;
  }

  lemma ReadInRange(s: string)
    ensures StrToInt("") == Some(0) && (StrToInt(s).Some? ==> IsInt(StrToInt(s).value))
  {
  }

  /** oris_strtoint accepts exactly the empty text, as 0, and the numerals of 32-bit numbers. */
  lemma ReadsAs(s: string, v: int)
    ensures StrToInt(s) == Some(v) <==>
      || (s == "" && v == 0)
      || (IsInt(v) && exists space, sign, digits :: Numeral(s, space, sign, digits) && v == Denoted(sign, digits))
  {
    hide Denoted, AllDigits, StrToInt, IsInt;
    ReadInRange(s);
    if s != "" && StrToInt(s) == Some(v) {
      ReadNumeral(s);
    }
    forall space, sign, digits | Numeral(s, space, sign, digits)
      ensures StrToInt(s) == if IsInt(Denoted(sign, digits)) then Some(Denoted(sign, digits)) else None
    {
      NumeralRead(s, space, sign, digits);
    }
  }

  // ----- what the comparisons mean

  /** The same letter, in either case, or the same character. */
  predicate SameLetter(c: char, d: char) {
    c == d || ('a' <= c <= 'z' && c as int == d as int + 32) || ('a' <= d <= 'z' && d as int == c as int + 32)
  }

  /** strcasecmp finds two texts equal if and only if they are as long as each other and have the
      same letters. */
  lemma EqIgnoreCaseMeans(a: string, b: string)
    ensures EqIgnoreCase(a, b) <==> |a| == |b| && forall i :: 0 <= i < |a| ==> SameLetter(a[i], b[i])
  {
    var x, y := Lower(a), Lower(b);
    forall i | 0 <= i < |a| && i < |b|
      ensures x[i] == y[i] <==> SameLetter(a[i], b[i])
    {
      SameLetterMeans(a[i], b[i]);
    }
    if |a| == |b| && forall i :: 0 <= i < |a| ==> SameLetter(a[i], b[i]) {
      assert x == y;
    }
  }

  lemma SameLetterMeans(c: char, d: char)
    ensures ToLower(c) == ToLower(d) <==> SameLetter(c, d)
  {
  }

  /** strcmp decides by the first character in which two texts differ, or else by length. */
  lemma {:induction false} GreaterMeans(p: string, a: string, b: string)
    ensures a != "" && b != "" && a[0] != b[0] ==> (Greater(p + a, p + b) <==> a[0] > b[0])
    ensures Greater(p + a, p) <==> a != ""
    ensures !Greater(p, p + a)
  {
    if p == "" {
      assert p + a == a && p + b == b;
    } else {
      GreaterMeans(p[1..], a, b);
      assert (p + a)[1..] == p[1..] + a && (p + b)[1..] == p[1..] + b;
    }
  }

  /** Decimal digits, the highest first. */
  lemma DecimalForm()
    ensures Decimal(1234567890) == "1234567890" && Decimal(-42) == "-42" && Decimal(0) == "0"
  {
    assert Digits(1) == "1" && Digits(4) == "4" && Digits(0) == "0";
    assert Digits(12) == "12" && Digits(42) == "42";
    assert Digits(123) == "123";
    assert Digits(1234) == "1234";
    assert Digits(12345) == "12345";
    assert Digits(123456) == "123456";
    assert Digits(1234567) == "1234567";
    assert Digits(12345678) == "12345678";
    assert Digits(123456789) == "123456789";
  }

  /** A digit more makes the number ten times as large, and adds the digit. */
  lemma NumberOfNext(s: string, d: nat)
    requires AllDigits(s) && d < 10
    ensures AllDigits(s + ['0' + d as char]) && NumberOf(s + ['0' + d as char]) == 10 * NumberOf(s) + d
    ensures NumberOf("") == 0
  {
    assert (s + ['0' + d as char])[..|s|] == s;
  }

  /** A plus sign changes nothing, and white space may stand in front of the sign. */
  lemma SignsRead()
    ensures StrToInt("+7") == Some(7) == StrToInt("7") && StrToInt(" -7") == Some(-7)
    ensures StrToInt("7 ") == None && StrToInt("+") == None && StrToInt("- 7") == None
  {
    assert NumberOf("7") == 7 by {
      NumberOfNext("", 7);
      assert "" + "7" == "7";
    }
    assert "+7"[1..] == "7" && " -7"[1..] == "-7" && "-7"[1..] == "7" && "- 7"[1..] == " 7" && "+"[1..] == "";
    assert "7 "[1] == ' ' && " 7"[0] == ' ';
  }

  /** White space is blank, tab, newline, vertical tab, form feed and carriage return. */
  lemma SpaceIs(c: char)
    ensures IsSpace(c) <==> c in {' ', '\t', '\n', 11 as char, 12 as char, '\r'}
  {
  }
}
