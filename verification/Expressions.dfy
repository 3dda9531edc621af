/** Expressions and what they evaluate to. An expression whose evaluation C leaves undefined has
    no result. */
module Expressions {
  import opened Wrappers
  import opened CStrings
  import opened Tables
  import opened TableLists
  import opened Values
  import opened TextFunctions

  /** The tables expressions refer to, and the number of characters that the locale sees in a
      text (mbstowcs). */
  datatype Env = Env(tables: seq<Content>, length: string -> Int32)

  datatype Expr =
    | Integer(text: string)
    | Text(s: string)
    | RecordByNumber(table: string, number: int)
    | RecordByName(table: string, column: string)
    | Binary(op: Op, a: Expr, b: Expr)
    | Call(name: string, args: seq<Expr>)

  datatype Function = LENGTH | TOKEN | QUOTE | LPAD | RPAD | LOOKUP

  /** get_builtin_fn_by_name */
  function FunctionNamed(name: string): Option<Function> {
    if EqIgnoreCase("LENGTH", name) then Some(LENGTH)
    else if EqIgnoreCase("TOKEN", name) then Some(TOKEN)
    else if EqIgnoreCase("QUOTE", name) then Some(QUOTE)
    else if EqIgnoreCase("LPAD", name) then Some(LPAD)
    else if EqIgnoreCase("RPAD", name) then Some(RPAD)
    else if EqIgnoreCase("LOOKUP", name) then Some(LOOKUP)
    else None
  }

  /** A missing argument reads as a missing value. */
  function Arg(args: seq<Value>, i: nat): Value {
    if i < |args| then args[i] else Null
  }

  /** The table can be read at its cursor. */
  predicate Readable(t: Content) {
    t.rows == [] || t.CursorInside()
  }

  /** oris_alloc_value_from_rec_i */
  function RecordAt(env: Env, table: string, number: int): Option<Value> {
    match Find(env.tables, table)
    case None => Some(Str(""))
    case Some(i) =>
      var t := env.tables[i];
      if !Readable(t) then None
      else match FieldAt(t, number) case None => Some(Str("")) case Some(s) => Some(Str(s))
  }

  /** oris_alloc_value_from_rec_s, which needs the field to exist. */
  function RecordNamed(env: Env, table: string, column: string): Option<Value> {
    match Find(env.tables, table)
    case None => None
    case Some(i) =>
      var t := env.tables[i];
      if t.rows == [] || !t.CursorInside() then None
      else match FieldAt(t, ColumnIndex(t, column)) case None => None case Some(s) => Some(Str(s))
  }

  /** oris_table_get_field_index */
  function ColumnIndex(t: Content, column: string): int {
    match StrToInt(column) case Some(v) => v - 1 case None => ColumnNamed(t.fields, column, 0)
  }

  // ----- LOOKUP

  function FieldOf(row: seq<string>, number: int): Option<string> {
    if 0 < number <= |row| then Some(row[number - 1]) else None
  }

  predicate Matches(row: seq<string>, number: int, value: string) {
    FieldOf(row, number).Some? && EqIgnoreCase(value, FieldOf(row, number).value)
  }

  /** The first row from i on with this value, ignoring case, in a field. */
  function FirstRow(rows: seq<seq<string>>, number: int, value: string, i: nat): (r: nat)
    requires i <= |rows|
    ensures i <= r <= |rows| && (r < |rows| ==> Matches(rows[r], number, value))
    ensures forall j :: i <= j < r ==> !Matches(rows[j], number, value)
    decreases |rows| - i
  {
    if i == |rows| || Matches(rows[i], number, value) then i else FirstRow(rows, number, value, i + 1)
  }

  /** What LOOKUP finds in a table; the empty text if there is no such row or field. */
  function Found(t: Content, value: string, number: int, wanted: int): string {
    var r := FirstRow(t.rows, number, value, 0);
    if r == |t.rows| || FieldOf(t.rows[r], wanted).None? then "" else FieldOf(t.rows[r], wanted).value
  }

  /** The column an argument of LOOKUP selects: by number, or by name; -1 if the name is not
      there. */
  function Column(t: Content, x: Value): Option<int> {
    match AsInt(x)
    case Some(v) => Some(v)
    case None => match AsString(x) case None => None case Some(s) => Some(ColumnNamed(t.fields, s, 0))
  }

  /** oris_built_in_lookup */
  function LookupResult(tables: seq<Content>, args: seq<Value>): Option<Value> {
    match (AsString(Arg(args, 0)), AsString(Arg(args, 1)))
    case (Some(value), Some(name)) =>
      match Find(tables, name) {
        case None => Some(Str(""))
        case Some(i) => LookupIn(tables[i], value, Arg(args, 2), Arg(args, 3))
      }
    case _ => None
  }

  function LookupIn(t: Content, value: string, x: Value, y: Value): Option<Value> {
    match Column(t, x)
    case None => None
    case Some(number) =>
      if AsInt(x).None? && number == -1 then Some(Str(""))
      else
        match Column(t, y)
        case None => None
        case Some(wanted) =>
          Some(Str(if AsInt(y).None? && wanted == -1 then "" else Found(t, value, number, wanted)))
  }

  // ----- functions

  function LengthResult(env: Env, args: seq<Value>): Option<Value> {
    match AsString(Arg(args, 0)) case None => None case Some(s) => Some(Int(env.length(s)))
  }

  /** The first character of a delimiter text; an empty one gives its terminator. */
  function Delimiter(d: string): char {
    if d == "" then NUL else d[0]
  }

  function TokenResult(args: seq<Value>): Option<Value> {
    match (AsString(Arg(args, 0)), AsString(Arg(args, 2)))
    case (Some(s), Some(d)) =>
      match AsInt(Arg(args, 1)) {
        case None => Some(Null)
        case Some(nr) => Some(Str(Token(s, nr, Delimiter(d))))
      }
    case _ => None
  }

  /** Filling up with nothing never ends. */
  function PadResult(args: seq<Value>, left: bool): Option<Value> {
    match (AsString(Arg(args, 0)), AsString(Arg(args, 2)))
    case (Some(s), Some(fill)) =>
      match AsInt(Arg(args, 1)) {
        case None => Some(Str(s))
        case Some(minlen) =>
          if !Fillable(|s|, minlen, fill) then None
          else
            var fills := Repeat(fill, FillsNeeded(|s|, minlen, fill));
            Some(Str(if left then fills + s else s + fills))
      }
    case _ => None
  }

  /** The text is long enough after some rounds of filling up, or no length is given. */
  predicate PadEndsBy(str: Value, minlen: Value, fill: Value, rounds: nat)
    requires !str.Null? && !fill.Null?
  {
    AsInt(minlen).Some? ==> LongEnough(AsString(str).value, AsInt(minlen).value, AsString(fill).value, rounds)
  }

  /** LPAD and RPAD have a result if and only if their loop ends. */
  lemma PadDefined(str: Value, minlen: Value, fill: Value, left: bool)
    requires !str.Null? && !fill.Null?
    ensures PadResult([str, minlen, fill], left).Some? <==> exists rounds: nat :: PadEndsBy(str, minlen, fill, rounds)
  {
    hide Repeat, FillsNeeded, Fillable;
    if AsInt(minlen).Some? {
      var s, t, n := AsString(str).value, AsString(fill).value, AsInt(minlen).value;
      PaddingEnds(s, n, t);
      assert PadResult([str, minlen, fill], left).Some? <==> Fillable(|s|, n, t);
      if Fillable(|s|, n, t) {
        var rounds: nat :| LongEnough(s, n, t, rounds);
        assert PadEndsBy(str, minlen, fill, rounds);
      } else {
        forall rounds: nat
          ensures !PadEndsBy(str, minlen, fill, rounds)
        {
          assert !LongEnough(s, n, t, rounds);
        }
      }
    } else {
      assert PadEndsBy(str, minlen, fill, 0);
    }
  }

  /** oris_expr_eval_function. An unknown function has a missing value. QUOTE takes its argument
      for a string of another kind. */
  function Apply(env: Env, name: string, args: seq<Value>): Option<Value> {
    match FunctionNamed(name)
    case None => Some(Null)
    case Some(LENGTH) => LengthResult(env, args)
    case Some(TOKEN) => TokenResult(args)
    case Some(QUOTE) => None
    case Some(LPAD) => PadResult(args, true)
    case Some(RPAD) => PadResult(args, false)
    case Some(LOOKUP) => LookupResult(env.tables, args)
  }

  /** The values of arguments; nothing if one of them is undefined. */
  function AllDefined(values: seq<Option<Value>>): (r: Option<seq<Value>>)
    ensures r.Some? <==> forall i :: 0 <= i < |values| ==> values[i].Some?
    ensures r.Some? ==> |r.value| == |values| && forall i :: 0 <= i < |values| ==> r.value[i] == values[i].value
  {
    if values == [] then Some([])
    else
      match (values[0], AllDefined(values[1..]))
      case (Some(x), Some(xs)) => Some([x] + xs)
      case _ => None
  }

  /** The rule expr of the tree grammar. */
  function Eval(env: Env, e: Expr): Option<Value> {
    match e
    case Integer(text) => Some(match StrToInt(text) case None => Null case Some(v) => Int(v))
    case Text(s) => Some(Str(s))
    case RecordByNumber(table, number) => RecordAt(env, table, number)
    case RecordByName(table, column) => RecordNamed(env, table, column)
    case Binary(op, a, b) =>
      (match (Eval(env, a), Eval(env, b))
       case (Some(x), Some(y)) => BinaryOp(op, x, y)
       case _ => None)
    case Call(name, args) =>
      match AllDefined(seq(|args|, i requires 0 <= i < |args| => Eval(env, args[i])))
      case None => None
      case Some(values) => Apply(env, name, values)
  }

  // ----- integers and their decimal forms cannot be told apart

  /** e', with any number of the integers of e replaced by texts of their decimal forms. */
  predicate Retagged(e: Expr, e': Expr) {
    match (e, e')
    case (Integer(text), Text(s)) => StrToInt(text).Some? && s == Decimal(StrToInt(text).value)
    case (Binary(op, a, b), Binary(op', a', b')) => op == op' && Retagged(a, a') && Retagged(b, b')
    case (Call(name, args), Call(name', args')) =>
      name == name' && |args| == |args'| && forall i :: 0 <= i < |args| ==> Retagged(args[i], args'[i])
    case _ => e == e'
  }

  /** Both undefined, or with the same text. */
  predicate SameText(x: Option<Value>, y: Option<Value>) {
    (x.None? <==> y.None?) && (x.Some? ==> AsString(x.value) == AsString(y.value))
  }

  predicate SameTexts(xs: seq<Value>, ys: seq<Value>) {
    |xs| == |ys| && forall i :: 0 <= i < |xs| ==> AsString(xs[i]) == AsString(ys[i])
  }

  lemma ArgSame(xs: seq<Value>, ys: seq<Value>, i: nat)
    requires SameTexts(xs, ys)
    ensures AsString(Arg(xs, i)) == AsString(Arg(ys, i)) && AsInt(Arg(xs, i)) == AsInt(Arg(ys, i))
  {
    TextDecides(Arg(xs, i));
    TextDecides(Arg(ys, i));
  }

  lemma LookupSame(tables: seq<Content>, xs: seq<Value>, ys: seq<Value>)
    requires SameTexts(xs, ys)
    ensures LookupResult(tables, xs) == LookupResult(tables, ys)
  {
    hide AsString, AsInt, Arg, SameTexts, Found;
    ArgSame(xs, ys, 0);
    ArgSame(xs, ys, 1);
    ArgSame(xs, ys, 2);
    ArgSame(xs, ys, 3);
  }

  lemma PadSame(xs: seq<Value>, ys: seq<Value>, left: bool)
    requires SameTexts(xs, ys)
    ensures PadResult(xs, left) == PadResult(ys, left)
  {
    hide AsString, AsInt, Arg, SameTexts;
    ArgSame(xs, ys, 0);
    ArgSame(xs, ys, 1);
    ArgSame(xs, ys, 2);
  }

  lemma TokenSame(xs: seq<Value>, ys: seq<Value>)
    requires SameTexts(xs, ys)
    ensures TokenResult(xs) == TokenResult(ys)
  {
    hide AsString, AsInt, Arg, SameTexts;
    ArgSame(xs, ys, 0);
    ArgSame(xs, ys, 1);
    ArgSame(xs, ys, 2);
  }

  /** The functions, too, see no more of their arguments than their texts. */
  lemma TagsUnseenByFunctions(env: Env, name: string, xs: seq<Value>, ys: seq<Value>)
    requires SameTexts(xs, ys)
    ensures Apply(env, name, xs) == Apply(env, name, ys)
  {
    hide FunctionNamed, LookupResult, PadResult, TokenResult;
    ArgSame(xs, ys, 0);
    LookupSame(env.tables, xs, ys);
    PadSame(xs, ys, true);
    PadSame(xs, ys, false);
    TokenSame(xs, ys);
  }

  lemma CallSame(env: Env, name: string, args: seq<Expr>, args': seq<Expr>)
    requires |args| == |args'| && forall i :: 0 <= i < |args| ==> SameText(Eval(env, args[i]), Eval(env, args'[i]))
    ensures Eval(env, Call(name, args)) == Eval(env, Call(name, args'))
  {
    hide Apply, AllDefined;
    var vs := seq(|args|, i requires 0 <= i < |args| => Eval(env, args[i]));
    var ws := seq(|args'|, i requires 0 <= i < |args'| => Eval(env, args'[i]));
    DefinedSame(vs, ws);
    if AllDefined(vs).Some? {
      TagsUnseenByFunctions(env, name, AllDefined(vs).value, AllDefined(ws).value);
    }
  }

  lemma DefinedSame(vs: seq<Option<Value>>, ws: seq<Option<Value>>)
    requires |vs| == |ws| && forall i :: 0 <= i < |vs| ==> SameText(vs[i], ws[i])
    ensures AllDefined(vs).Some? <==> AllDefined(ws).Some?
    ensures AllDefined(vs).Some? ==> SameTexts(AllDefined(vs).value, AllDefined(ws).value)
  {
  }

  lemma BinarySame(env: Env, op: Op, a: Expr, a': Expr, b: Expr, b': Expr)
    requires SameText(Eval(env, a), Eval(env, a')) && SameText(Eval(env, b), Eval(env, b'))
    ensures Eval(env, Binary(op, a, b)) == Eval(env, Binary(op, a', b'))
  {
    hide AsString, BinaryOp;
    var x, x', y, y' := Eval(env, a), Eval(env, a'), Eval(env, b), Eval(env, b');
    if x.Some? && y.Some? {
      TagsUnseenByOperators(op, x.value, x'.value, y.value, y'.value);
    }
  }

  /** Replacing integers anywhere in an expression by the texts of their decimal forms changes
      neither whether it has a result nor how the result reads, as an integer or as a text; the
      result of an operator or function is the very same. */
  lemma {:induction false} TagsUnseen(env: Env, e: Expr, e': Expr)
    requires Retagged(e, e')
    ensures SameText(Eval(env, e), Eval(env, e'))
    ensures Eval(env, e).Some? ==> AsInt(Eval(env, e).value) == AsInt(Eval(env, e').value)
    ensures !e.Integer? ==> Eval(env, e) == Eval(env, e')
  {
    match (e, e')
    case (Binary(op, a, b), Binary(_, a', b')) =>
      hide Eval, BinaryOp;
      TagsUnseen(env, a, a');
      TagsUnseen(env, b, b');
      BinarySame(env, op, a, a', b, b');
    case (Call(name, args), Call(_, args')) =>
      hide Eval, Apply;
      forall i | 0 <= i < |args|
        ensures SameText(Eval(env, args[i]), Eval(env, args'[i]))
      {
        TagsUnseen(env, args[i], args'[i]);
      }
      CallSame(env, name, args, args');
    case (Integer(text), Text(s)) => DecimalReadsBack(StrToInt(text).value);
    case _ =>
  }

  // ----- the cursor

  /** Reading a field sets a cursor that was never set on the first row. */
  predicate CursorSet(t: Content, t': Content) {
    t' == t || (t.rows != [] && t.currentRow == -1 && t' == t.(currentRow := 0))
  }

  predicate CursorsSet(ts: seq<Content>, ts': seq<Content>) {
    |ts| == |ts'| && forall i :: 0 <= i < |ts| ==> CursorSet(ts[i], ts'[i])
  }

  lemma FindUnseen(ts: seq<Content>, ts': seq<Content>, name: string, i: nat)
    requires CursorsSet(ts, ts') && i <= |ts|
    ensures FindFrom(ts', name, i) == FindFrom(ts, name, i)
    decreases |ts| - i
  {
  }

  lemma LeavesUnseen(env: Env, env': Env, table: string, number: int, column: string)
    requires CursorsSet(env.tables, env'.tables)
    ensures RecordAt(env', table, number) == RecordAt(env, table, number)
    ensures RecordNamed(env', table, column) == RecordNamed(env, table, column)
  {
    hide FindFrom, ColumnNamed, StrToInt;
    FindUnseen(env.tables, env'.tables, table, 0);
  }

  lemma ApplyUnseen(env: Env, env': Env, name: string, args: seq<Value>)
    requires CursorsSet(env.tables, env'.tables) && env'.length == env.length
    ensures Apply(env', name, args) == Apply(env, name, args)
  {
    hide FunctionNamed, PadResult, TokenResult, FindFrom, AsInt, AsString, ColumnNamed, FirstRow;
    var table := AsString(Arg(args, 1));
    if table.Some? {
      FindUnseen(env.tables, env'.tables, table.value, 0);
    }
  }

  lemma CallUnseen(env: Env, env': Env, name: string, args: seq<Expr>)
    requires CursorsSet(env.tables, env'.tables) && env'.length == env.length
    requires forall i :: 0 <= i < |args| ==> Eval(env', args[i]) == Eval(env, args[i])
    ensures Eval(env', Call(name, args)) == Eval(env, Call(name, args))
  {
    hide Apply, AllDefined;
    var vs := seq(|args|, i requires 0 <= i < |args| => Eval(env, args[i]));
    var ws := seq(|args|, i requires 0 <= i < |args| => Eval(env', args[i]));
    assert vs == ws;
    if AllDefined(vs).Some? {
      ApplyUnseen(env, env', name, AllDefined(vs).value);
    }
  }

  /** No expression can see whether others have been evaluated before it. */
  lemma {:induction false} CursorUnseen(env: Env, env': Env, e: Expr)
    requires CursorsSet(env.tables, env'.tables) && env'.length == env.length
    ensures Eval(env', e) == Eval(env, e)
  {
    hide RecordAt, RecordNamed, Apply, BinaryOp;
    match e
    case Binary(op, a, b) =>
      CursorUnseen(env, env', a);
      CursorUnseen(env, env', b);
    case Call(name, args) =>
      hide Eval;
      forall i | 0 <= i < |args|
        ensures Eval(env', args[i]) == Eval(env, args[i])
      {
        CursorUnseen(env, env', args[i]);
      }
      CallUnseen(env, env', name, args);
    case RecordByNumber(table, number) => LeavesUnseen(env, env', table, number, "");
    case RecordByName(table, column) => LeavesUnseen(env, env', table, 0, column);
    case _ =>
  }
}
