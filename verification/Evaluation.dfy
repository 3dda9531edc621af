/** Operators and functions on expression values that are changed in place. */
module Evaluation {
  import opened Wrappers
  import opened CStrings
  import opened Tables
  import opened TableLists
  import opened Values
  import opened TextFunctions
  import opened Expressions

  /** A value that can be turned into a text where it stands (oris_parse_expr_t); one that
      holds Null stands for a null pointer. */
  class Cell {
    var value: Value

    constructor (value: Value)
      ensures this.value == value
    {
      this.value := value;
    }

    /** oris_expr_cast_to_str: the text read is the same before and after. */
    method CastToStr() returns (s: string)
      requires !value.Null?
      modifies this
      ensures value == Str(s) && Some(s) == AsString(old(value)) == AsString(value)
      ensures AsInt(value) == AsInt(old(value))
    {
      TextDecides(value);
      if value.Int? {
        value := Str(Decimal(value.v));
      }
      s := value.s;
    }
  }

  /** oris_grammar_eval_plus */
  method EvalPlus(a: Cell, b: Cell) returns (r: Value)
    requires BinaryOp(Plus, a.value, b.value).Some?
    modifies a, b
    ensures Some(r) == old(BinaryOp(Plus, a.value, b.value))
    ensures AsString(a.value) == old(AsString(a.value)) && AsString(b.value) == old(AsString(b.value))
  {
    hide Decimal, StrToInt;
    var ia, ib := AsInt(a.value), AsInt(b.value);
    if ia.Some? && ib.Some? {
      r := Int(ia.value + ib.value);
    } else {
      var s := a.CastToStr();
      var t := b.CastToStr();
      r := Str(s + t);
    }
  }

  /** oris_expr_eval_log_op2 */
  method EvalLogOp(op: Op, a: Cell, b: Cell) returns (r: Value)
    requires op.Compares() && BinaryOp(op, a.value, b.value).Some?
    modifies a, b
    ensures Some(r) == old(BinaryOp(op, a.value, b.value))
    ensures AsString(a.value) == old(AsString(a.value)) && AsString(b.value) == old(AsString(b.value))
  {
    hide Decimal, StrToInt, Compare;
    var ia, ib := AsInt(a.value), AsInt(b.value);
    if ia.Some? && ib.Some? {
      r := match op
        case Equal => Truth(ia == ib)
        case NotEqual => Truth(ia != ib)
        case Lth => Truth(ia.value < ib.value)
        case Le => Truth(ia.value <= ib.value)
        case Ge => Truth(ia.value >= ib.value)
        case Gt => Truth(ia.value > ib.value);
    } else {
      var s := a.CastToStr();
      var t := b.CastToStr();
      var sign := Compare(s, t);
      r := Truth(Holds(op, sign));
    }
  }

  /** oris_expr_eval_binary_op, where its result is defined. */
  method EvalBinaryOp(op: Op, a: Cell, b: Cell) returns (r: Value)
    requires BinaryOp(op, a.value, b.value).Some?
    modifies a, b
    ensures Some(r) == old(BinaryOp(op, a.value, b.value))
    ensures AsString(a.value) == old(AsString(a.value)) && AsString(b.value) == old(AsString(b.value))
  {
    hide Decimal, StrToInt, Compare, AsString;
    if op == Plus {
      r := EvalPlus(a, b);
    } else if op.Compares() {
      r := EvalLogOp(op, a, b);
    } else {
      var ia, ib := AsInt(a.value).value, AsInt(b.value).value;
      r := match op
        case Minus => Int(ia - ib)
        case Mul => Int(ia * ib)
        case Div => Int(Quotient(ia, ib))
        case Mod => Int(Remainder(ia, ib))
        case Or => Truth(ia != 0 || ib != 0)
        case And => Truth(ia != 0 && ib != 0);
    }
  }

  /** oris_built_in_token */
  method BuiltInToken(str: Cell, nr: Cell, delim: Cell) returns (r: Value)
    requires !str.value.Null? && !delim.value.Null?
    modifies str, delim
    ensures Some(r) == TokenResult([old(str.value), old(nr.value), old(delim.value)])
    ensures AsString(str.value) == old(AsString(str.value)) && AsString(delim.value) == old(AsString(delim.value))
  {
    hide Decimal, StrToInt, Token;
    var s := str.CastToStr();
    var d := delim.CastToStr();
    var n := AsInt(nr.value);
    if n.Some? {
      var token := TakeToken(s, n.value, Delimiter(d));
      r := Str(token);
    } else {
      r := Null;
    }
  }

  /** oris_built_in_lpad and oris_built_in_rpad, or the first rounds of their loop: done says that
      it has ended, as it does for some number of rounds exactly if there is a result. */
  method BuiltInPad(str: Cell, minlen: Cell, fillArg: Cell, left: bool, rounds: nat) returns (r: Value, done: bool)
    requires !str.value.Null? && !fillArg.value.Null?
    modifies str, fillArg
    ensures done <==> PadEndsBy(old(str.value), old(minlen.value), old(fillArg.value), rounds)
    ensures done ==> Some(r) == PadResult([old(str.value), old(minlen.value), old(fillArg.value)], left)
    ensures AsString(str.value) == old(AsString(str.value)) && AsString(fillArg.value) == old(AsString(fillArg.value))
  {
    hide Decimal, StrToInt, FillsNeeded, Repeat;
    TextsKnown(minlen.value);
    var s := str.CastToStr();
    var fill := fillArg.CastToStr();
    var n := AsInt(minlen.value);
    done := true;
    if n.Some? {
      if left {
        s, done := PadLeft(s, n.value, fill, rounds);
      } else {
        s, done := PadRight(s, n.value, fill, rounds);
      }
    }
    r := Str(s);
  }

  /** The scan of oris_built_in_lookup over the rows, which moves the cursor and puts it back. */
  method ScanRows(tbl: Table, value: string, number: int, wanted: int) returns (s: string)
    modifies tbl`currentRow
    ensures tbl.View() == old(tbl.View())
    ensures s == Found(tbl.View(), value, number, wanted)
  {
    var rowBackup := tbl.currentRow;
    s := "";
    tbl.currentRow := 0;
    while tbl.currentRow < |tbl.rows|
      invariant 0 <= tbl.currentRow <= |tbl.rows| && s == ""
      invariant FirstRow(tbl.rows, number, value, 0) == FirstRow(tbl.rows, number, value, tbl.currentRow)
      decreases |tbl.rows| - tbl.currentRow
    {
      var f := tbl.GetFieldByIndex(number);
      if f.Some? && EqIgnoreCase(value, f.value) {
        f := tbl.GetFieldByIndex(wanted);
        if f.Some? {
          s := s + f.value;
        }
        break;
      }
      tbl.currentRow := tbl.currentRow + 1;
    }
    tbl.currentRow := rowBackup;
  }

  /** A column given to LOOKUP: by number, or by name (lines 576-588). */
  method ColumnGiven(tbl: Table, x: Cell) returns (number: int, valid: bool)
    requires !x.value.Null?
    ensures Column(tbl.View(), x.value) == Some(number)
    ensures !valid <==> AsInt(x.value).None? && number == -1
  {
    hide Decimal, StrToInt, ColumnNamed;
    var v := AsInt(x.value);
    if v.Some? {
      return v.value, true;
    }
    number := tbl.GetFieldIndex(x.value.s);
    valid := number != -1;
  }

  /** The part of oris_built_in_lookup behind the search for the table (lines 576-606). */
  method LookupInTable(tbl: Table, value: string, x: Cell, y: Cell) returns (r: Value)
    requires LookupIn(tbl.View(), value, x.value, y.value).Some?
    modifies tbl`currentRow
    ensures Some(r) == LookupIn(tbl.View(), value, x.value, y.value) && tbl.View() == old(tbl.View())
  {
    hide Found, AsString, AsInt;
    TextsKnown(x.value);
    TextsKnown(y.value);
    var number, valid := ColumnGiven(tbl, x);
    if !valid {
      return Str("");
    }
    var wanted, valid' := ColumnGiven(tbl, y);
    if !valid' {
      return Str("");
    }
    var s := ScanRows(tbl, value, number, wanted);
    r := Str(s);
  }

  lemma ColumnSame(t: Content, x: Value, x': Value)
    requires AsString(x) == AsString(x')
    ensures AsInt(x) == AsInt(x') && Column(t, x) == Column(t, x')
  {
    TextDecides(x);
    TextDecides(x');
  }

  lemma LookupInSame(t: Content, value: string, x: Value, x': Value, y: Value, y': Value)
    requires AsString(x) == AsString(x') && AsString(y) == AsString(y')
    ensures LookupIn(t, value, x, y) == LookupIn(t, value, x', y')
  {
    hide Found, AsString, AsInt, Column;
    ColumnSame(t, x, x');
    ColumnSame(t, y, y');
  }

  /** oris_built_in_lookup, where its result is defined. The tables are left as they were. */
  method BuiltInLookup(tables: TableList, value: Cell, tblName: Cell, x: Cell, y: Cell) returns (r: Value)
    requires tables.Valid()
    requires LookupResult(tables.View(), [value.value, tblName.value, x.value, y.value]).Some?
    modifies value, tblName, tables, tables.tables
    ensures Some(r)
      == LookupResult(old(tables.View()), [old(value.value), old(tblName.value), old(x.value), old(y.value)])
    ensures tables.tables == old(tables.tables) && tables.View() == old(tables.View()) && tables.Valid()
  {
    hide AsString, AsInt, LookupIn, Find, WithTable, NamesDistinct;
    ghost var ts := tables.View();
    TextsKnown(value.value);
    TextsKnown(tblName.value);
    var s := value.CastToStr();
    TextsKnown(tblName.value);
    var name := tblName.CastToStr();
    var i := tables.GetOrCreate(Some(name), false);
    if i == None {
      return Str("");
    }
    var tbl := tables.tables[i.value];
    assert tbl.View() == ts[i.value];
    LookupInSame(ts[i.value], s, old(x.value), x.value, old(y.value), y.value);
    r := LookupInTable(tbl, s, x, y);
    assert tables.View() == ts;
  }

  /** oris_alloc_value_from_rec_i, where the cursor is inside the table. */
  method ValueFromRecord(tables: TableList, name: string, number: int, ghost env: Env) returns (r: Value)
    requires tables.Valid() && env.tables == tables.View() && RecordAt(env, name, number).Some?
    modifies tables, tables.tables
    ensures Some(r) == RecordAt(env, name, number)
    ensures tables.Valid() && CursorsSet(env.tables, tables.View())
  {
    hide Find, EqIgnoreCase;
    var i := tables.GetOrCreate(Some(name), false);
    if i == None {
      return Str("");
    }
    var tbl := tables.tables[i.value];
    assert tbl.View() == env.tables[i.value];
    var s := tbl.GetFieldByIndex(number);
    r := Str(if s == None then "" else s.value);
    assert CursorSet(env.tables[i.value], tbl.View());
  }
}
