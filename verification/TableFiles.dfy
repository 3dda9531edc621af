/** Writing the tables to a file and reading them back, line by line. */
module TableFiles {
  import opened Wrappers
  import opened CStrings
  import opened Fields
  import opened Tables
  import opened TableLists
  import opened TableText

  /** A text file open for reading. */
  class TextFile {
    const text: string
    var pos: nat

    ghost predicate Valid()
      reads this
    {
      pos <= |text| && NUL !in text
    }

    /** The lines still to be read. */
    ghost function Ahead(): seq<string>
      requires pos <= |text|
      reads this
    {
      FileLines(text[pos..])
    }

    constructor (text: string)
      requires NUL !in text
      ensures this.text == text && Valid() && pos == 0
    {
      this.text, pos := text, 0;
    }

    method Rewind()
      modifies this
      ensures pos == 0
    {
      pos := 0;
    }

    method GetLine() returns (line: Option<string>)
      requires Valid()
      modifies this
      ensures Valid()
      ensures old(Ahead()) == [] ==> line == None && Ahead() == []
      ensures old(Ahead()) != [] ==> line == Some(old(Ahead())[0]) && Ahead() == old(Ahead())[1..]
      ensures line.Some? ==> line.value != "" && NUL !in line.value
    {
      if pos == |text| {
        return None;
      }
      var start := pos;
      ghost var rest := text[start..];
      while pos < |text| && text[pos] != '\n'
        invariant start <= pos <= |text|
        invariant LineLength(rest) == pos - start + LineLength(text[pos..])
        decreases |text| - pos
      {
        assert text[pos..][1..] == text[pos + 1..];
        pos := pos + 1;
      }
      if pos < |text| {
        pos := pos + 1;
      }
      assert text[start..pos] == rest[..LineLength(rest)];
      assert text[pos..] == rest[LineLength(rest)..];
      line := Some(text[start..pos]);
      assert forall c :: c in text[start..pos] ==> c in text;
    }
  }

  /** oris_find_table_in_file */
  method FindTableInFile(f: TextFile, tblName: string) returns (found: bool)
    requires f.Valid()
    modifies f
    ensures f.Valid()
    ensures found <==> Behind(FileLines(f.text), tblName).Some?
    ensures found ==> Behind(FileLines(f.text), tblName) == Some(f.Ahead())
  {
    f.Rewind();
    assert f.text[0..] == f.text;
    var line := f.GetLine();
    while line.Some?
      invariant f.Valid()
      invariant Behind(FileLines(f.text), tblName)
        == if line.Some? then Behind([line.value] + f.Ahead(), tblName) else None
      decreases if line.Some? then 1 + |f.Ahead()| else 0
    {
      if IsHeader(line.value, tblName) {
        assert ([line.value] + f.Ahead())[1..] == f.Ahead();
        return true;
      }
      assert ([line.value] + f.Ahead())[1..] == f.Ahead();
      assert f.Ahead() != [] ==> f.Ahead() == [f.Ahead()[0]] + f.Ahead()[1..];
      line := f.GetLine();
    }
    found := false;
  }

  /** The text of a row that is added to a table for a line (lines 479-486). */
  method RowText(line: string, definition: bool) returns (s: string)
    requires line != "" && NUL !in line
    ensures Split(s, DELIM) == RowOf(line, definition) && NUL !in s
  {
    s := line;
    if IsCntrl(line[|line| - 1]) {
      s := line[..|line| - 1];
    }
    var eq := FirstAt(s, '=');
    if definition && eq < |s| {
      s := s[eq := DELIM];
    }
  }

  /** oris_read_table_from_file */
  method ReadTableFromFile(f: TextFile, tbl: Table, definition: bool) returns (retval: nat)
    requires f.Valid()
    modifies f, tbl
    ensures f.Valid()
    ensures var rows := Read(FileLines(f.text), old(tbl.name), definition);
      tbl.View() == AddedAll(old(tbl.View()), rows) && retval == |rows|
  {
    retval := 0;
    var found := FindTableInFile(f, tbl.name);
    if !found {
      return;
    }
    ghost var rows := RowsOf(f.Ahead(), definition);
    while true
      invariant f.Valid()
      invariant retval + |RowsOf(f.Ahead(), definition)| == |rows|
      invariant AddedAll(tbl.View(), RowsOf(f.Ahead(), definition)) == AddedAll(old(tbl.View()), rows)
      decreases |f.Ahead()|
    {
      var line := f.GetLine();
      if line.None? || IsSpace(line.value[0]) {
        break;
      }
      var s := RowText(line.value, definition);
      tbl.AddRow(s, DELIM);
      retval := retval + 1;
    }
  }

  /** oris_table_add_fields_from_definition */
  method AddFieldsFromDefinition(tbl: Table, def: seq<string>)
    requires def != []
    modifies tbl
    ensures tbl.View() == old(tbl.View()).(fields := Named(def[1..]))
  {
    tbl.fields := [];
    for i := 1 to |def|
      invariant tbl.View() == old(tbl.View()).(fields := Named(def[1..i]))
    {
      tbl.fields := tbl.fields + [Some(def[i])];
      assert Named(def[1..i + 1]) == Named(def[1..i]) + [Some(def[i])];
    }
    assert def[1..|def|] == def[1..];
  }

  /** Names the columns of a table as its definition says and adds the rows of its section
      (lines 541-542). */
  method FillTable(tbl: Table, f: TextFile, def: seq<string>)
    requires f.Valid() && def != []
    modifies f, tbl
    ensures f.Valid() && tbl.name == old(tbl.name)
    ensures tbl.View() == AddedAll(
      old(tbl.View()).(fields := Named(def[1..])), Read(FileLines(f.text), old(tbl.name), false))
  {
    hide Read, FileLines, AddedAll;
    AddFieldsFromDefinition(tbl, def);
    AddedAllKeepsName(tbl.View(), Read(FileLines(f.text), tbl.name, false));
    var n := ReadTableFromFile(f, tbl, false);
  }

  /** One definition followed (lines 530-543). */
  method LoadDefinition(tables: TableList, f: TextFile, def: seq<string>)
    requires tables.Valid() && f.Valid() && def != []
    modifies tables, tables.tables, f
    ensures tables.Valid() && f.Valid()
    ensures forall k :: 0 <= k < |tables.tables| ==> tables.tables[k] in old(tables.tables) || fresh(tables.tables[k])
    ensures tables.View() == LoadTable(old(tables.View()), FileLines(f.text), def)
  {
    hide Read, FileLines, AddedAll, Named, NamesDistinct;
    var name := def[0];
    if name == "" {
      return;
    }
    var tbl, i := tables.TableNamed(name);
    label found:
    FillTable(tbl, f, def);
    tables.OnlyOneChanged@found(i);
  }

  lemma {:induction false} AddedAllKeepsName(t: Content, rows: seq<seq<string>>)
    ensures AddedAll(t, rows).name == t.name
    decreases rows
  {
    if rows != [] {
      AddedAllKeepsName(t.Added(rows[0]), rows[1..]);
    }
  }

  /** oris_tables_load_from_file */
  method LoadFromFile(tables: TableList, f: TextFile)
    requires tables.Valid() && f.Valid()
    modifies tables, tables.tables, f
    ensures tables.Valid()
    ensures tables.View() == Load(old(tables.View()), f.text)
  {
    hide Read, FileLines, LoadTable, NamesDistinct, AddedAll;
    ghost var lines, ts := FileLines(f.text), tables.View();
    ghost var defs := Read(lines, DEFINITION, true);
    var rows := ReadDefinitions(f);
    assert tables.View() == ts && defs[0..] == defs;
    for row := 0 to |rows|
      invariant tables.Valid() && f.Valid()
      invariant forall k :: 0 <= k < |tables.tables| ==>
        tables.tables[k] in old(tables.tables) || fresh(tables.tables[k])
      invariant LoadTables(tables.View(), lines, defs[row..]) == LoadTables(ts, lines, defs)
    {
      assert defs[row..][0] == defs[row] && defs[row..][1..] == defs[row + 1..];
      LoadDefinition(tables, f, rows[row]);
    }
  }

  /** The rows of the table of definitions (lines 519 and 528). */
  method ReadDefinitions(f: TextFile) returns (rows: seq<seq<string>>)
    requires f.Valid()
    modifies f
    ensures f.Valid() && rows == Read(FileLines(f.text), DEFINITION, true)
  {
    hide Read, FileLines;
    var defTbl := new Table();
    defTbl.name := DEFINITION;
    RowsAdded(defTbl.View(), Read(FileLines(f.text), DEFINITION, true));
    var n := ReadTableFromFile(f, defTbl, true);
    rows := defTbl.rows;
  }

  lemma {:induction false} RowsAdded(t: Content, rows: seq<seq<string>>)
    ensures AddedAll(t, rows).rows == t.rows + rows
    decreases rows
  {
    if rows == [] {
      assert t.rows + rows == t.rows;
    } else {
      RowsAdded(t.Added(rows[0]), rows[1..]);
      assert t.rows + [rows[0]] + rows[1..] == t.rows + rows;
    }
  }

  // ----- dumping

  lemma {:induction false} UnlinesAppend(p: seq<string>, q: seq<string>)
    ensures Unlines(p + q) == Unlines(p) + Unlines(q)
  {
    if p == [] {
      assert p + q == q;
    } else {
      UnlinesAppend(p[1..], q);
      assert (p + q)[1..] == p[1..] + q;
      assert p[0] + "\n" + (Unlines(p[1..]) + Unlines(q)) == p[0] + "\n" + Unlines(p[1..]) + Unlines(q);
    }
  }

  lemma {:induction false} JoinAppend(fields: seq<string>, x: string)
    ensures JoinAll(fields + [x]) == if fields == [] then x else JoinAll(fields) + [DELIM] + x
  {
    if |fields| > 1 {
      JoinAppend(fields[1..], x);
      assert (fields + [x])[1..] == fields[1..] + [x];
      var f := fields[0] + [DELIM];
      assert f + (JoinAll(fields[1..]) + [DELIM] + x) == f + JoinAll(fields[1..]) + [DELIM] + x;
    } else if |fields| == 1 {
      assert fields + [x] == [fields[0], x] && [fields[0], x][1..] == [x];
      assert Join([x], DELIM) == x;
    }
  }

  /** Writes a table's line in the definitions (lines 360-371). */
  method DumpDefinition(t: Table) returns (line: string)
    ensures line == DefinitionLine(t.View())
  {
    ghost var headers := Headers(t.fields);
    var out := "";
    for j := 0 to |t.fields|
      invariant out == JoinAll(headers[..j])
    {
      JoinAppend(headers[..j], headers[j]);
      assert headers[..j + 1] == headers[..j] + [headers[j]];
      if j > 0 {
        out := out + [DELIM];
      }
      if t.fields[j].Some? {
        out := out + t.fields[j].value;
      } else {
        out := out + Decimal(j + 1);
      }
    }
    assert headers[..|t.fields|] == headers;
    line := t.name + "=" + out;
  }

  lemma NothingJoined()
    ensures JoinAll([]) == ""
  {
  }

  /** Writes a row (lines 382-388). */
  method DumpRow(row: seq<string>) returns (line: string)
    ensures line == JoinAll(row)
  {
    hide JoinAll;
    line := "";
    NothingJoined();
    for col := 0 to |row|
      invariant line == JoinAll(row[..col])
    {
      JoinAppend(row[..col], row[col]);
      assert row[..col + 1] == row[..col] + [row[col]];
      if col > 0 {
        line := line + [DELIM];
      }
      line := line + row[col];
    }
    assert row[..|row|] == row;
  }

  lemma RowLinesAppend(rows: seq<seq<string>>, row: seq<string>)
    ensures RowLines(rows + [row]) == RowLines(rows) + [JoinAll(row)]
  {
  }

  /** Writes the rows of a table (lines 381-390). */
  method DumpRows(rows: seq<seq<string>>) returns (text: string)
    ensures text == Unlines(RowLines(rows))
  {
    text := "";
    for j := 0 to |rows|
      invariant text == Unlines(RowLines(rows[..j]))
    {
      var line := DumpRow(rows[j]);
      RowLinesAppend(rows[..j], rows[j]);
      assert rows[..j + 1] == rows[..j] + [rows[j]];
      AddLine(RowLines(rows[..j]), line);
      text := text + line + "\n";
    }
    assert rows[..|rows|] == rows;
  }

  /** Writes a table's section (lines 376-391). */
  method DumpSection(t: Table) returns (text: string)
    ensures text == Unlines(Section(t.View()))
  {
    if t.isTemporary {
      return "";
    }
    var rows := DumpRows(t.rows);
    text := "[" + t.name + "]" + "\n" + rows + "\n";
    AddLine(["[" + t.name + "]"] + RowLines(t.rows), "");
    UnlinesAppend(["[" + t.name + "]"], RowLines(t.rows));
    assert Unlines(["[" + t.name + "]"]) == "[" + t.name + "]" + "\n";
  }

  lemma AddLine(lines: seq<string>, line: string)
    ensures Unlines(lines + [line]) == Unlines(lines) + line + "\n"
  {
    UnlinesAppend(lines, [line]);
    assert Unlines([line]) == line + "\n";
  }

  lemma {:induction false} DefinitionLinesAppend(ts: seq<Content>, t: Content)
    ensures DefinitionLines(ts + [t]) == DefinitionLines(ts) + [DefinitionLine(t)]
  {
    if ts != [] {
      DefinitionLinesAppend(ts[1..], t);
      assert (ts + [t])[1..] == ts[1..] + [t];
    }
  }

  lemma {:induction false} SectionsAppend(ts: seq<Content>, t: Content)
    ensures Sections(ts + [t]) == Sections(ts) + Section(t)
  {
    hide Section;
    if ts == [] {
      assert Sections([t]) == Section(t) + [];
    } else {
      SectionsAppend(ts[1..], t);
      assert (ts + [t])[1..] == ts[1..] + [t];
      assert Section(ts[0]) + (Sections(ts[1..]) + Section(t)) == Section(ts[0]) + Sections(ts[1..]) + Section(t);
    }
  }

  method DumpDefinitions(tables: TableList) returns (text: string)
    ensures text == Unlines(DefinitionLines(tables.View()))
  {
    ghost var ts := tables.View();
    text := "";
    for i := 0 to |tables.tables|
      invariant text == Unlines(DefinitionLines(ts[..i]))
    {
      var line := DumpDefinition(tables.tables[i]);
      DefinitionLinesAppend(ts[..i], ts[i]);
      assert ts[..i + 1] == ts[..i] + [ts[i]];
      AddLine(DefinitionLines(ts[..i]), line);
      text := text + line + "\n";
    }
    assert ts[..|ts|] == ts;
  }

  method DumpSections(tables: TableList) returns (text: string)
    ensures text == Unlines(Sections(tables.View()))
  {
    hide Section;
    ghost var ts := tables.View();
    text := "";
    for i := 0 to |tables.tables|
      invariant text == Unlines(Sections(ts[..i]))
    {
      var section := DumpSection(tables.tables[i]);
      SectionsAppend(ts[..i], ts[i]);
      assert ts[..i + 1] == ts[..i] + [ts[i]];
      UnlinesAppend(Sections(ts[..i]), Section(ts[i]));
      text := text + section;
    }
    assert ts[..|ts|] == ts;
  }

  lemma DumpText(ts: seq<Content>)
    ensures Unlines(DumpLines(ts))
      == "[Definition]\n" + (Unlines(DefinitionLines(ts)) + ("\n" + Unlines(Sections(ts))))
  {
    var header := "[" + DEFINITION + "]";
    UnlinesAppend([header], DefinitionLines(ts) + ([""] + Sections(ts)));
    UnlinesAppend(DefinitionLines(ts), [""] + Sections(ts));
    UnlinesAppend([""], Sections(ts));
    assert Unlines([header]) == "[Definition]\n" && Unlines([""]) == "\n";
  }

  /** oris_tables_dump_to_file */
  method DumpToFile(tables: TableList) returns (text: string)
    ensures text == Unlines(DumpLines(tables.View()))
  {
    hide Unlines, DumpLines, DefinitionLines, Sections;
    var definitions := DumpDefinitions(tables);
    var sections := DumpSections(tables);
    text := "[Definition]\n" + (definitions + ("\n" + sections));
    DumpText(tables.View());
  }
}
