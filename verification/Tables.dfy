/** A data table: named columns, rows of fields and a cursor. */
module Tables {
  import opened Wrappers
  import opened CStrings
  import opened Fields

  /** What a table holds. A column without a name is None. */
  datatype Content = Content(
    name: string, rows: seq<seq<string>>, fields: seq<Option<string>>,
    currentRow: int, complete: bool, temporary: bool)
  {
    /** No row is wider than the table. */
    ghost predicate Wide() {
      forall i :: 0 <= i < |rows| ==> |rows[i]| <= |fields|
    }

    /** The cursor is unset or on a row. */
    predicate CursorInside() {
      currentRow == -1 || 0 <= currentRow < |rows|
    }

    function Cleared(): Content {
      this.(rows := [], fields := [], currentRow := -1)
    }

    function Added(row: seq<string>): Content {
      this.(rows := rows + [row], fields := Widened(fields, |row|))
    }

    function CopiedFrom(src: Content): Content {
      this.(rows := src.rows, fields := src.fields, currentRow := -1)
    }
  }

  /** The column names, filled up with unnamed columns to width n. */
  function Widened(fields: seq<Option<string>>, n: nat): (r: seq<Option<string>>)
    ensures |r| == if |fields| < n then n else |fields|
    ensures fields <= r && forall i :: |fields| <= i < |r| ==> r[i] == None
    decreases n - |fields|
  {
    if |fields| >= n then fields else Widened(fields + [None], n)
  }

  function Fresh(name: string): Content {
    Content(name, [], [], -1, true, false)
  }

  /** The field a number selects in the row under the cursor; a cursor that was never set
      stands on the first row. */
  function FieldAt(t: Content, index: int): Option<string> {
    var row := if t.currentRow == -1 then 0 else t.currentRow;
    if t.rows != [] && 0 <= row < |t.rows| && 0 < index <= |t.rows[row]| then Some(t.rows[row][index - 1]) else None
  }

  /** The number of the first column with a name; -1 if there is none. */
  function ColumnNamed(fields: seq<Option<string>>, name: string, i: nat): int
    requires i <= |fields|
    decreases |fields| - i
  {
    if i == |fields| then -1
    else if fields[i] == Some(name) then i + 1
    else ColumnNamed(fields, name, i + 1)
  }

  /** It is the first column of that name, counted from 1; names are compared exactly. */
  lemma {:induction false} ColumnNamedIs(fields: seq<Option<string>>, name: string, i: nat)
    requires i <= |fields| && forall j :: 0 <= j < i ==> fields[j] != Some(name)
    ensures var r := ColumnNamed(fields, name, i);
      && (r == -1 <==> Some(name) !in fields)
      && (r != -1 ==> 0 < r <= |fields| && fields[r - 1] == Some(name)
                      && forall j :: 0 <= j < r - 1 ==> fields[j] != Some(name))
    decreases |fields| - i
  {
    if i < |fields| && fields[i] != Some(name) {
      ColumnNamedIs(fields, name, i + 1);
    }
  }

  /** The fields of the row under the cursor, or of the first row, are numbered from 1. */
  lemma FieldAtIs(t: Content, index: int)
    requires t.CursorInside()
    ensures t.rows == [] ==> FieldAt(t, index) == None
    ensures t.rows != [] ==>
      var row := t.rows[if t.currentRow < 0 then 0 else t.currentRow];
      && (index < 1 || index > |row| ==> FieldAt(t, index) == None)
      && forall j :: 0 <= j < |row| ==> FieldAt(t, j + 1) == Some(row[j])
  {
  }

  /** A new table has a name and nothing else, and is complete. */
  lemma FreshIs(name: string)
    ensures var t := Fresh(name);
      && t.name == name && t.rows == [] && t.fields == [] && t.currentRow == -1 && t.complete && !t.temporary
  {
  }

  class Table {
    var name: string
    var currentRow: int
    var complete: bool
    var rows: seq<seq<string>>
    var fields: seq<Option<string>>
    var isTemporary: bool

    ghost function View(): Content
      reads this
    {
      Content(name, rows, fields, currentRow, complete, isTemporary)
    }

    /** What adding, clearing and copying rows and columns leave alone. */
    ghost predicate Kept(t: Content)
      reads this
    {
      name == t.name && complete == t.complete && isTemporary == t.temporary
    }

    constructor ()
      ensures View() == Fresh("") && View().CursorInside()
    {
      name, currentRow, complete, rows, fields, isTemporary := "", -1, true, [], [], false;
    }

    /** oris_table_init */
    method Init()
      modifies this
      ensures name == "" && rows == [] && fields == [] && currentRow == -1 && complete && !isTemporary
      ensures View() == Fresh("") && View().CursorInside()
    {
      name, currentRow, complete, rows, fields, isTemporary := "", -1, true, [], [], false;
    }

    /** Structure assignment. */
    method Assign(src: Table)
      modifies this
      ensures View() == old(src.View())
    {
      name, currentRow, complete := src.name, src.currentRow, src.complete;
      rows, fields, isTemporary := src.rows, src.fields, src.isTemporary;
    }

    /** oris_table_add_row */
    method AddRow(s: string, delim: char)
      requires NUL !in s && delim != NUL
      modifies this
      ensures View() == old(View()).Added(Split(s, delim))
      ensures rows == old(rows) + [Split(s, delim)] && Kept(old(View())) && currentRow == old(currentRow)
      ensures old(fields) <= fields && forall j :: |old(fields)| <= j < |fields| ==> fields[j] == None
      ensures |fields| == if |Split(s, delim)| > |old(fields)| then |Split(s, delim)| else |old(fields)|
      ensures old(View().Wide()) ==> View().Wide()
      ensures old(View().CursorInside()) ==> View().CursorInside()
    {
      var row := SplitRecord(s, delim);
      while |fields| < |row|
        invariant View() == old(View()).(fields := fields)
        invariant Widened(fields, |row|) == Widened(old(fields), |row|)
        invariant |old(fields)| <= |fields|
      {
        fields := fields + [None];
      }
      rows := rows + [row];
    }

    /** oris_table_clear */
    method Clear()
      modifies this
      ensures View() == old(View()).Cleared() && View().Wide() && View().CursorInside()
      ensures rows == [] && fields == [] && currentRow == -1 && Kept(old(View()))
    {
      rows, fields, currentRow := [], [], -1;
    }

    /** oris_table_copy_to. A table copied to itself is empty afterwards. */
    method CopyTo(dst: Table)
      modifies dst
      ensures dst.View() == old(dst.View()).CopiedFrom(if dst == this then old(View()).Cleared() else old(View()))
      ensures dst.rows == (if dst == this then [] else old(rows))
      ensures dst.fields == (if dst == this then [] else old(fields))
      ensures dst.currentRow == -1 && dst.Kept(old(dst.View()))
      ensures old(View().Wide()) ==> dst.View().Wide()
      ensures dst.View().CursorInside()
    {
      dst.Clear();
      dst.fields := fields;
      dst.rows := [];
      for i := 0 to |rows|
        invariant dst == this ==> rows == [] && fields == []
        invariant dst != this ==> dst.View() == old(dst.View()).(rows := rows[..i], fields := fields,
          currentRow := -1)
        invariant dst == this ==> dst.View() == old(dst.View()).Cleared()
      {
        dst.rows := dst.rows + [rows[i]];
      }
    }

    /** oris_table_add_field */
    method AddField(fieldName: string) returns (count: nat)
      modifies this
      ensures count == |fields|
      ensures View() == old(View()).(fields := old(fields) + [Some(fieldName)])
      ensures fields == old(fields) + [Some(fieldName)] && rows == old(rows) && Kept(old(View()))
      ensures old(View().Wide()) ==> View().Wide()
      ensures old(View().CursorInside()) ==> View().CursorInside()
    {
      fields := fields + [Some(fieldName)];
      count := |fields|;
    }

    /** oris_table_get_field_index. A text that is a number n is answered with n - 1, a
        column name with its number counted from 1. */
    method GetFieldIndex(field: string) returns (index: int)
      ensures StrToInt(field).Some? ==> index == StrToInt(field).value - 1
      ensures StrToInt(field).None? ==> index == ColumnNamed(fields, field, 0)
      ensures StrToInt(field).None? ==>
        && (index == -1 <==> Some(field) !in fields)
        && (index != -1 ==> 0 < index <= |fields| && fields[index - 1] == Some(field))
    {
      ColumnNamedIs(fields, field, 0);
      var v := StrToInt(field);
      if v.Some? {
        return v.value - 1;
      }
      for i := 0 to |fields|
        invariant ColumnNamed(fields, field, 0) == ColumnNamed(fields, field, i)
      {
        if fields[i] == Some(field) {
          return i + 1;
        }
      }
      index := -1;
    }

    /** oris_table_get_field_by_index */
    method GetFieldByIndex(index: int) returns (s: Option<string>)
      requires rows == [] || View().CursorInside()
      modifies this`currentRow
      ensures s == FieldAt(old(View()), index)
      ensures rows != [] ==> 0 <= currentRow < |rows|
      ensures rows != [] && 0 <= currentRow < |rows| ==>
        s == if 1 <= index <= |rows[currentRow]| then Some(rows[currentRow][index - 1]) else None
      ensures currentRow == if rows != [] && old(currentRow) == -1 then 0 else old(currentRow)
      ensures old(View().CursorInside()) ==> View().CursorInside()
    {
      if rows == [] {
        return None;
      }
      if currentRow == -1 {
        currentRow := 0;
      }
      var row := rows[currentRow];
      if index <= 0 || index > |row| {
        return None;
      }
      s := Some(rows[currentRow][index - 1]);
    }
  }
}
