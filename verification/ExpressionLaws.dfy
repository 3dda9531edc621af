/** What expressions and their functions give, in operands and arguments written out. */
module ExpressionLaws {
  import opened Wrappers
  import opened CStrings
  import Fields
  import opened Tables
  import opened TableLists
  import opened Values
  import opened TextFunctions
  import opened Expressions

  // ----- trees

  /** Leaves: a numeral is the integer it is read as, or a missing value; a text is itself. */
  lemma LeafIs(env: Env, text: string)
    ensures Eval(env, Text(text)) == Some(Str(text))
    ensures StrToInt(text).None? ==> Eval(env, Integer(text)) == Some(Null)
    ensures forall v: Int32 :: StrToInt(text) == Some(v) ==> Eval(env, Integer(text)) == Some(Int(v))
  {
    hide StrToInt;
  }

  /** MINUS subtracts the right operand's value from the left one's. */
  lemma MinusOf(env: Env, a: Expr, b: Expr, x: Value, y: Value)
    requires Eval(env, a) == Some(x) && Eval(env, b) == Some(y) && AsInt(x).Some? && AsInt(y).Some?
    requires IsInt(AsInt(x).value - AsInt(y).value)
    ensures Eval(env, Binary(Minus, a, b)) == Some(Int(AsInt(x).value - AsInt(y).value))
  {
    hide AsInt, Eval, BinaryOp;
    OperatorOf(env, Minus, a, b);
    OnIntegers(x, y, AsInt(x).value, AsInt(y).value);
  }

  /** An operator has no result if an operand has none; otherwise it is applied to their values,
      left and right. */
  lemma OperatorOf(env: Env, op: Op, a: Expr, b: Expr)
    ensures Eval(env, a) == None || Eval(env, b) == None ==> Eval(env, Binary(op, a, b)) == None
    ensures Eval(env, a).Some? && Eval(env, b).Some? ==>
      Eval(env, Binary(op, a, b)) == BinaryOp(op, Eval(env, a).value, Eval(env, b).value)
  {
    hide BinaryOp, Apply, RecordAt, RecordNamed, StrToInt, AllDefined;
  }

  /** A function gets the values of its arguments in order, if all of them have one. */
  lemma FunctionOf(env: Env, name: string, args: seq<Expr>, values: seq<Value>)
    requires |args| == |values| && forall i :: 0 <= i < |args| ==> Eval(env, args[i]) == Some(values[i])
    ensures Eval(env, Call(name, args)) == Apply(env, name, values)
  {
    hide Apply;
    var vs := seq(|args|, i requires 0 <= i < |args| => Eval(env, args[i]));
    assert AllDefined(vs).Some? && AllDefined(vs).value == values;
  }

  lemma UndefinedArgument(env: Env, name: string, args: seq<Expr>, i: nat)
    requires i < |args| && Eval(env, args[i]) == None
    ensures Eval(env, Call(name, args)) == None
  {
    hide Apply;
    var vs := seq(|args|, k requires 0 <= k < |args| => Eval(env, args[k]));
    assert vs[i] == None;
  }

  // ----- names of functions

  /** Functions are known by their names in any case, and no other name is known. */
  lemma NamesOfFunctions(name: string)
    ensures EqIgnoreCase("length", name) <==> FunctionNamed(name) == Some(LENGTH)
    ensures EqIgnoreCase("token", name) <==> FunctionNamed(name) == Some(TOKEN)
    ensures EqIgnoreCase("quote", name) <==> FunctionNamed(name) == Some(QUOTE)
    ensures EqIgnoreCase("lpad", name) <==> FunctionNamed(name) == Some(LPAD)
    ensures EqIgnoreCase("rpad", name) <==> FunctionNamed(name) == Some(RPAD)
    ensures EqIgnoreCase("lookup", name) <==> FunctionNamed(name) == Some(LOOKUP)
  {
    hide Lower;
    SameNames();
    OtherNames();
  }

  lemma SameNames()
    ensures EqIgnoreCase("LENGTH", "length") && EqIgnoreCase("TOKEN", "token") && EqIgnoreCase("QUOTE", "quote")
    ensures EqIgnoreCase("LPAD", "lpad") && EqIgnoreCase("RPAD", "rpad") && EqIgnoreCase("LOOKUP", "lookup")
  {
    hide EqIgnoreCase;
    EqIgnoreCaseMeans("LENGTH", "length");
    EqIgnoreCaseMeans("TOKEN", "token");
    EqIgnoreCaseMeans("QUOTE", "quote");
    EqIgnoreCaseMeans("LPAD", "lpad");
    EqIgnoreCaseMeans("RPAD", "rpad");
    EqIgnoreCaseMeans("LOOKUP", "lookup");
  }

  lemma OtherNames()
    ensures !EqIgnoreCase("token", "quote") && !EqIgnoreCase("lpad", "rpad") && !EqIgnoreCase("length", "lookup")
    ensures forall a, b :: EqIgnoreCase(a, b) ==> |a| == |b|
  {
    hide EqIgnoreCase;
    EqIgnoreCaseMeans("token", "quote");
    EqIgnoreCaseMeans("lpad", "rpad");
    EqIgnoreCaseMeans("length", "lookup");
    assert "token"[0] == 't' && "quote"[0] == 'q' && "lpad"[0] == 'l' && "rpad"[0] == 'r';
    assert "length"[1] == 'e' && "lookup"[1] == 'o';
    forall a, b | EqIgnoreCase(a, b)
      ensures |a| == |b|
    {
      EqIgnoreCaseMeans(a, b);
    }
  }

  // ----- functions on texts

  /** The arguments s, m and f of LPAD and RPAD: fill texts before or behind the text, as many as
      are needed for the length and no more. */
  lemma PadIs(env: Env, name: string, x: Value, y: Value, z: Value, n: nat)
    requires AsString(x).Some? && AsInt(y).Some? && AsString(z).Some?
    requires var s, m, f := AsString(x).value, AsInt(y).value, AsString(z).value;
      |s| + n * |f| >= m && (n > 0 ==> |s| + (n - 1) * |f| < m)
    ensures EqIgnoreCase("lpad", name) ==>
      Apply(env, name, [x, y, z]) == Some(Str(Repeat(AsString(z).value, n) + AsString(x).value))
    ensures EqIgnoreCase("rpad", name) ==>
      Apply(env, name, [x, y, z]) == Some(Str(AsString(x).value + Repeat(AsString(z).value, n)))
  {
    hide AsString, AsInt, EqIgnoreCase, Repeat, FunctionNamed;
    NamesOfFunctions(name);
    var s, m, f := AsString(x).value, AsInt(y).value, AsString(z).value;
    if !Fillable(|s|, m, f) {
      NoFills(n);
      assert false;
    }
    FillsAre(|s|, m, f, n);
  }

  lemma NoFills(n: nat)
    ensures n * |""| == 0
  {
  }

  lemma FillsAre(length: nat, m: int, f: string, n: nat)
    requires Fillable(length, m, f) && length + n * |f| >= m && (n > 0 ==> length + (n - 1) * |f| < m)
    ensures FillsNeeded(length, m, f) == n
  {
    SameCount(length, m, |f|, FillsNeeded(length, m, f), n);
  }

  /** Without a length the text stays as it is. */
  lemma PadWithoutLength(env: Env, name: string, x: Value, y: Value, z: Value)
    requires AsString(x).Some? && AsInt(y) == None && AsString(z).Some?
    requires EqIgnoreCase("lpad", name) || EqIgnoreCase("rpad", name)
    ensures Apply(env, name, [x, y, z]) == Some(Str(AsString(x).value))
  {
    hide AsString, AsInt, EqIgnoreCase, FunctionNamed;
    NamesOfFunctions(name);
  }

  /** TOKEN splits its first argument at the first character of its third, and its second counts
      the fields from 1; an empty field in front of another gives the delimiter and the other. */
  lemma TokenIs(env: Env, name: string, x: Value, y: Value, z: Value, d: char, more: string)
    requires EqIgnoreCase("token", name)
    requires AsString(x).Some? && AsInt(y).Some? && AsString(z) == Some([d] + more)
    ensures var k, fields := AsInt(y).value, Fields.Split(AsString(x).value, d);
      Apply(env, name, [x, y, z]) == Some(Str(
        if k < 1 || k > |fields| then ""
        else if fields[k - 1] == "" && k < |fields| then [d] + fields[k]
        else fields[k - 1]))
  {
    hide AsString, AsInt, EqIgnoreCase, FunctionNamed, Token, Fields.Split, PadResult, LookupResult, LengthResult;
    NamesOfFunctions(name);
    var s, k := AsString(x).value, AsInt(y).value;
    assert ([d] + more)[0] == d;
    if k >= 1 {
      TokenOfFields(s, k, d);
    } else {
      NoToken(s, k, d);
    }
  }

  lemma NoToken(s: string, k: int, d: char)
    requires k < 1
    ensures Token(s, k, d) == ""
  {
  }

  /** LENGTH is the number of characters the locale sees in its argument's text. An unknown
      function has a missing value; so has TOKEN without a number. */
  lemma LengthIs(env: Env, name: string, x: Value, y: Value, z: Value)
    requires AsString(x).Some?
    ensures EqIgnoreCase("length", name) ==> Apply(env, name, [x]) == Some(Int(env.length(AsString(x).value)))
    ensures EqIgnoreCase("token", name) && AsInt(y) == None && AsString(z).Some? ==>
      Apply(env, name, [x, y, z]) == Some(Null)
    ensures FunctionNamed(name) == None ==> Apply(env, name, [x]) == Some(Null)
  {
    hide AsString, AsInt, EqIgnoreCase, FunctionNamed;
    NamesOfFunctions(name);
  }

  // ----- LOOKUP

  /** An argument selects column c: by the number c, or by the name of the first column so
      called. */
  ghost predicate Selects(t: Content, x: Value, c: int) {
    && AsString(x).Some?
    && if AsInt(x).Some? then AsInt(x).value == c
       else
         && 1 <= c <= |t.fields| && t.fields[c - 1] == AsString(x)
         && forall j :: 0 <= j < c - 1 ==> t.fields[j] != AsString(x)
  }

  lemma SelectedColumn(t: Content, x: Value, c: int)
    requires Selects(t, x, c)
    ensures Column(t, x) == Some(c) && (AsInt(x).None? ==> c != -1)
  {
    hide AsString, AsInt;
    if AsInt(x).None? {
      ColumnNamedIs(t.fields, AsString(x).value, 0);
      var r := ColumnNamed(t.fields, AsString(x).value, 0);
      assert t.fields[c - 1] in t.fields;
      assert r != -1 && !(r < c) && !(c < r);
    }
  }

  /** The row's field number c is there and is the value, in any case. */
  predicate HasValue(row: seq<string>, c: int, value: string) {
    1 <= c <= |row| && EqIgnoreCase(value, row[c - 1])
  }

  /** The arguments of LOOKUP: a value, the name of table i, and two selected columns. */
  ghost predicate LookupArgs(env: Env, args: seq<Value>, value: string, i: nat, c: int, w: int) {
    && |args| == 4 && AsString(args[0]) == Some(value) && AsString(args[1]).Some?
    && Find(env.tables, AsString(args[1]).value) == Some(i) && i < |env.tables|
    && Selects(env.tables[i], args[2], c) && Selects(env.tables[i], args[3], w)
  }

  lemma LookupInTable(env: Env, name: string, args: seq<Value>, value: string, i: nat, c: int, w: int)
    requires EqIgnoreCase("lookup", name) && LookupArgs(env, args, value, i, c, w)
    ensures Apply(env, name, args) == Some(Str(Found(env.tables[i], value, c, w)))
  {
    hide AsString, AsInt, EqIgnoreCase, FunctionNamed, Column, Find, Found;
    NamesOfFunctions(name);
    SelectedColumn(env.tables[i], args[2], c);
    SelectedColumn(env.tables[i], args[3], w);
  }

  /** LOOKUP(value, table, c, w): the field w of the first row whose field c is the value; empty if
      that row has no such field. */
  lemma LookupIs(env: Env, name: string, args: seq<Value>, value: string, i: nat, c: int, w: int, r: nat)
    requires EqIgnoreCase("lookup", name) && LookupArgs(env, args, value, i, c, w)
    requires r < |env.tables[i].rows| && HasValue(env.tables[i].rows[r], c, value)
    requires forall j :: 0 <= j < r ==> !HasValue(env.tables[i].rows[j], c, value)
    ensures var row := env.tables[i].rows[r];
      Apply(env, name, args) == Some(Str(if 1 <= w <= |row| then row[w - 1] else ""))
  {
    hide EqIgnoreCase, HasValue, Found, Selects, Find, Apply;
    LookupInTable(env, name, args, value, i, c, w);
    FoundIs(env.tables[i], value, c, w, r);
  }

  lemma FoundIs(t: Content, value: string, c: int, w: int, r: nat)
    requires r <= |t.rows| && (r < |t.rows| ==> HasValue(t.rows[r], c, value))
    requires forall j :: 0 <= j < r ==> !HasValue(t.rows[j], c, value)
    ensures Found(t, value, c, w) ==
      if r < |t.rows| && 1 <= w <= |t.rows[r]| then t.rows[r][w - 1] else ""
  {
    hide EqIgnoreCase;
    forall j | 0 <= j < |t.rows|
      ensures Matches(t.rows[j], c, value) <==> HasValue(t.rows[j], c, value)
    {
    }
    hide HasValue, Matches;
    assert FirstRow(t.rows, c, value, 0) == r;
  }

  /** It is empty if no row has the value. */
  lemma LookupFindsNone(env: Env, name: string, args: seq<Value>, value: string, i: nat, c: int, w: int)
    requires EqIgnoreCase("lookup", name) && LookupArgs(env, args, value, i, c, w)
    requires forall j :: 0 <= j < |env.tables[i].rows| ==> !HasValue(env.tables[i].rows[j], c, value)
    ensures Apply(env, name, args) == Some(Str(""))
  {
    hide EqIgnoreCase, HasValue, Found, Selects, Find, Apply;
    LookupInTable(env, name, args, value, i, c, w);
    FoundIs(env.tables[i], value, c, w, |env.tables[i].rows|);
  }

  /** It is empty, too, if there is no table of that name, or if the first column is given by a
      name that the table does not have. */
  lemma LookupNowhere(env: Env, name: string, args: seq<Value>)
    requires EqIgnoreCase("lookup", name) && |args| == 4
    requires AsString(args[0]).Some? && AsString(args[1]).Some?
    requires match Find(env.tables, AsString(args[1]).value)
      case None => true
      case Some(i) => AsInt(args[2]) == None && AsString(args[2]).Some? && AsString(args[2]) !in env.tables[i].fields
    ensures Apply(env, name, args) == Some(Str(""))
  {
    hide AsString, AsInt, EqIgnoreCase, FunctionNamed, Find;
    NamesOfFunctions(name);
    match Find(env.tables, AsString(args[1]).value)
    case None =>
    case Some(i) => ColumnNamedIs(env.tables[i].fields, AsString(args[2]).value, 0);
  }

  /** So is it if the second column is given by a name that the table does not have. */
  lemma LookupNoField(env: Env, name: string, args: seq<Value>, i: nat, c: int)
    requires EqIgnoreCase("lookup", name) && |args| == 4
    requires AsString(args[0]).Some? && AsString(args[1]).Some?
    requires Find(env.tables, AsString(args[1]).value) == Some(i) && i < |env.tables|
    requires Selects(env.tables[i], args[2], c)
    requires AsInt(args[3]) == None && AsString(args[3]).Some? && AsString(args[3]) !in env.tables[i].fields
    ensures Apply(env, name, args) == Some(Str(""))
  {
    hide AsString, AsInt, EqIgnoreCase, FunctionNamed, Find, Selects, LookupIn;
    NamesOfFunctions(name);
    NoSecondColumn(env.tables[i], AsString(args[0]).value, args[2], args[3], c);
  }

  lemma NoSecondColumn(t: Content, value: string, x: Value, y: Value, c: int)
    requires Selects(t, x, c) && AsInt(y) == None && AsString(y).Some? && AsString(y) !in t.fields
    ensures LookupIn(t, value, x, y) == Some(Str(""))
  {
    SelectedColumn(t, x, c);
    hide AsString, AsInt, Selects, Found;
    ColumnNamedIs(t.fields, AsString(y).value, 0);
  }

  /** Functions need the texts of their arguments; QUOTE has no result at all. */
  lemma MissingArguments(env: Env, name: string, args: seq<Value>)
    ensures EqIgnoreCase("quote", name) ==> Apply(env, name, args) == None
    ensures (args == [] || args[0] == Null) && FunctionNamed(name).Some? ==> Apply(env, name, args) == None
    ensures (|args| < 3 || args[2] == Null) && FunctionNamed(name) in {Some(TOKEN), Some(LPAD), Some(RPAD)} ==>
      Apply(env, name, args) == None
    ensures (|args| < 2 || args[1] == Null) && FunctionNamed(name) == Some(LOOKUP) ==> Apply(env, name, args) == None
  {
    hide EqIgnoreCase, FunctionNamed;
    NamesOfFunctions(name);
  }

  // ----- records

  /** A field by its number, or by its column's name: the field of the row under the cursor, or of
      the first row if the cursor is unset. A column name that is a number counts from 2. */
  lemma RecordIs(env: Env, name: string, i: nat, column: string, j: nat)
    requires Find(env.tables, name) == Some(i) && i < |env.tables|
    requires var t := env.tables[i]; t.rows != [] && t.CursorInside()
    ensures var t := env.tables[i]; var row := t.rows[if t.currentRow < 0 then 0 else t.currentRow];
      && (j < |row| ==> RecordAt(env, name, j + 1) == Some(Str(row[j])))
      && (j >= |row| ==> RecordAt(env, name, j + 1) == Some(Str("")))
      && (StrToInt(column) == None && j < |t.fields| && t.fields[j] == Some(column)
          && (forall k :: 0 <= k < j ==> t.fields[k] != Some(column)) ==>
            RecordNamed(env, name, column) == if j < |row| then Some(Str(row[j])) else None)
      && (StrToInt(column) == Some(j + 2) ==>
            RecordNamed(env, name, column) == if j < |row| then Some(Str(row[j])) else None)
  {
    hide Find, StrToInt;
    var t := env.tables[i];
    FieldAtIs(t, j + 1);
    ColumnNamedIs(t.fields, column, 0);
    if StrToInt(column) == None && j < |t.fields| && t.fields[j] == Some(column)
      && (forall k :: 0 <= k < j ==> t.fields[k] != Some(column)) {
      var r := ColumnNamed(t.fields, column, 0);
      assert Some(column) in t.fields && r == j + 1;
    }
  }

  /** Without such a table, or without rows, a number gives the empty text, and a name nothing. */
  lemma NoRecord(env: Env, name: string, number: int, column: string)
    requires match Find(env.tables, name) case None => true case Some(i) => env.tables[i].rows == []
    ensures RecordAt(env, name, number) == Some(Str("")) && RecordNamed(env, name, column) == None
  {
    hide Find, StrToInt;
  }
}
