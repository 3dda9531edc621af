/** Dumping a list of tables and loading the text gives the tables back. */
module TableRoundTrip {
  import opened Wrappers
  import opened CStrings
  import opened Fields
  import opened Tables
  import opened TableLists
  import opened TableText

  predicate GoodText(s: string) {
    DELIM !in s && '\n' !in s
  }

  predicate GoodName(name: string) {
    && GoodText(name) && name != "" && !IsSpace(name[0])
    && ']' !in name && '=' !in name
    && !EqIgnoreCase(name, DEFINITION)
  }

  /** A row whose line is read back as a row of the same table. */
  ghost predicate GoodRow(row: seq<string>, ts: seq<Content>) {
    && row != [] && (forall i :: 0 <= i < |row| ==> GoodText(row[i]))
    && JoinAll(row) != "" && !IsSpace(JoinAll(row)[0])
    && forall j :: 0 <= j < |ts| ==> !IsHeader(JoinAll(row), ts[j].name)
  }

  ghost predicate GoodDefinition(t: Content) {
    && GoodName(t.name)
    && (forall j :: 0 <= j < |t.fields| && t.fields[j].Some? ==> GoodText(t.fields[j].value))
  }

  ghost predicate GoodTable(t: Content, ts: seq<Content>) {
    && GoodDefinition(t)
    && (!t.temporary ==> t.Wide() && forall i :: 0 <= i < |t.rows| ==> GoodRow(t.rows[i], ts))
  }

  ghost predicate WellFormed(ts: seq<Content>) {
    NamesDistinct(ts) && forall k :: 0 <= k < |ts| ==> GoodTable(ts[k], ts)
  }

  /** The columns as they come back: a table without columns gets one with an empty name. */
  function RestoredHeaders(fields: seq<Option<string>>): (r: seq<string>)
    ensures r != []
  {
    if fields == [] then [""] else Headers(fields)
  }

  function Restored(t: Content): Content {
    Content(t.name, if t.temporary then [] else t.rows, Named(RestoredHeaders(t.fields)), -1, true, false)
  }

  function RestoredAll(ts: seq<Content>): (r: seq<Content>)
    ensures |r| == |ts| && forall i :: 0 <= i < |ts| ==> r[i] == Restored(ts[i])
  {
    seq(|ts|, i requires 0 <= i < |ts| => Restored(ts[i]))
  }

  // ----- lines

  function Terminated(lines: seq<string>): (r: seq<string>)
    ensures |r| == |lines| && forall i :: 0 <= i < |lines| ==> r[i] == lines[i] + "\n"
  {
    seq(|lines|, i requires 0 <= i < |lines| => lines[i] + "\n")
  }

  lemma {:induction false} FirstLine(line: string, rest: string)
    requires '\n' !in line
    ensures LineLength(line + "\n" + rest) == |line| + 1
  {
    var s := line + "\n" + rest;
    if line != "" {
      assert line[0] in line;
      assert s[1..] == line[1..] + "\n" + rest;
      FirstLine(line[1..], rest);
    }
  }

  /** Lines without newlines come back when their text is read line by line. */
  lemma {:induction false} ReadUnlines(lines: seq<string>)
    requires Clean(lines)
    ensures FileLines(Unlines(lines)) == Terminated(lines)
  {
    if lines != [] {
      var rest := Unlines(lines[1..]);
      var s := Unlines(lines);
      FirstLine(lines[0], rest);
      assert s[..|lines[0]| + 1] == lines[0] + "\n";
      assert s[|lines[0]| + 1..] == rest;
      ReadUnlines(lines[1..]);
      assert Terminated(lines) == [lines[0] + "\n"] + Terminated(lines[1..]);
    }
  }

  // ----- finding a section

  lemma HeaderOfLine(line: string, name: string)
    ensures IsHeader(line + "\n", name) <==> IsHeader(line, name)
  {
  }

  lemma OwnHeader(name: string)
    ensures IsHeader("[" + name + "]", name)
  {
  }

  /** The header of a table is not the header of another one. */
  lemma OtherHeader(m: string, name: string)
    requires ']' !in m && !EqIgnoreCase(m, name)
    ensures !IsHeader("[" + m + "]", name)
  {
  }

  lemma LowerKeeps(s: string, c: char)
    requires !('A' <= c <= 'Z') && !('a' <= c <= 'z')
    ensures c in Lower(s) <==> c in s
  {
  }

  /** No definition is the header of a table. */
  lemma DefinitionIsNoHeader(m: string, rest: string, name: string)
    requires ']' !in m && '=' !in name
    ensures !IsHeader(m + "=" + rest, name)
  {
    var line := m + "=" + rest;
    LowerKeeps(name, '=');
    if |name| + 1 < |m| {
      assert line[|name| + 1] == m[|name| + 1];
      assert m[|name| + 1] in m;
    } else if m != "" && |line| >= |name| + 2 && |name| + 1 > |m| {
      var l := line[1..|name| + 1];
      assert l[|m| - 1] == '=';
      LowerKeeps(l, '=');
    }
  }

  ghost predicate NoHeader(lines: seq<string>, name: string) {
    forall i :: 0 <= i < |lines| ==> !IsHeader(lines[i], name)
  }

  lemma {:induction false} SkipLines(p: seq<string>, q: seq<string>, name: string)
    requires NoHeader(p, name)
    ensures Behind(Terminated(p + q), name) == Behind(Terminated(q), name)
  {
    if p == [] {
      assert p + q == q;
    } else {
      HeaderOfLine(p[0], name);
      SkipLines(p[1..], q, name);
      assert Terminated(p + q)[1..] == Terminated(p[1..] + q);
    }
  }

  // ----- reading the lines of a section

  lemma {:induction false} JoinClean(fields: seq<string>, c: char)
    requires fields != [] && c != DELIM && forall i :: 0 <= i < |fields| ==> c !in fields[i]
    ensures c !in Join(fields, DELIM)
  {
    if |fields| > 1 {
      JoinClean(fields[1..], c);
    }
  }

  lemma HeadersClean(fields: seq<Option<string>>)
    requires forall j :: 0 <= j < |fields| && fields[j].Some? ==> GoodText(fields[j].value)
    ensures forall j :: 0 <= j < |RestoredHeaders(fields)| ==> GoodText(RestoredHeaders(fields)[j])
  {
  }

  lemma StrippedLine(line: string)
    ensures Stripped(line + "\n") == line
  {
  }

  /** A row's line is read back as the row. */
  lemma RowRead(row: seq<string>)
    requires row != [] && forall i :: 0 <= i < |row| ==> GoodText(row[i])
    ensures RowOf(JoinAll(row) + "\n", false) == row
    ensures '\n' !in JoinAll(row)
  {
    StrippedLine(JoinAll(row));
    SplitJoin(row, DELIM);
    JoinClean(row, '\n');
  }

  lemma NextRow(line: string, lines: seq<string>, definition: bool)
    requires line != "" && !IsSpace(line[0])
    ensures RowsOf(Terminated([line] + lines), definition)
      == [RowOf(line + "\n", definition)] + RowsOf(Terminated(lines), definition)
  {
    assert Terminated([line] + lines)[1..] == Terminated(lines);
  }

  lemma BlankLineEndsRows(lines: seq<string>, definition: bool)
    ensures RowsOf(Terminated([""] + lines), definition) == []
  {
  }

  lemma {:induction false} RowsRead(rows: seq<seq<string>>, rest: seq<string>, ts: seq<Content>)
    requires forall i :: 0 <= i < |rows| ==> GoodRow(rows[i], ts)
    ensures RowsOf(Terminated(RowLines(rows) + ([""] + rest)), false) == rows
  {
    hide RowsOf, RowOf, Terminated, IsHeader, GoodText;
    if rows == [] {
      assert RowLines(rows) + ([""] + rest) == [""] + rest;
      BlankLineEndsRows(rest, false);
    } else {
      RowRead(rows[0]);
      RowsRead(rows[1..], rest, ts);
      NextRow(JoinAll(rows[0]), RowLines(rows[1..]) + ([""] + rest), false);
      assert RowLines(rows) + ([""] + rest) == [JoinAll(rows[0])] + (RowLines(rows[1..]) + ([""] + rest));
    }
  }

  /** The row a definition is read as. */
  function DefinitionRow(t: Content): (r: seq<string>)
    ensures r != []
  {
    [t.name] + RestoredHeaders(t.fields)
  }

  /** The '=' behind a name is read as a delimiter. */
  lemma RowOfDefinition(name: string, rest: string)
    requires '=' !in name
    ensures RowOf(name + "=" + rest + "\n", true) == Split(name + [DELIM] + rest, DELIM)
  {
    hide Split, FirstAt, Stripped;
    var line := name + "=" + rest;
    StrippedLine(line);
    FirstAtIs(name, '=', rest);
    assert line[|name| := DELIM] == name + [DELIM] + rest;
  }

  /** A definition in parts: its fields, and the line they are joined to. */
  lemma DefinitionParts(t: Content)
    requires GoodDefinition(t)
    ensures '=' !in t.name && forall i :: 0 <= i < |DefinitionRow(t)| ==> GoodText(DefinitionRow(t)[i])
    ensures DefinitionLine(t) == t.name + "=" + JoinAll(RestoredHeaders(t.fields))
    ensures Join(DefinitionRow(t), DELIM) == t.name + [DELIM] + JoinAll(RestoredHeaders(t.fields))
  {
    hide GoodText, IsSpace, EqIgnoreCase, HeaderText;
    HeadersClean(t.fields);
    assert DefinitionRow(t)[1..] == RestoredHeaders(t.fields);
  }

  lemma DefinitionRead(t: Content)
    requires GoodDefinition(t)
    ensures RowOf(DefinitionLine(t) + "\n", true) == DefinitionRow(t)
    ensures '\n' !in DefinitionLine(t)
  {
    hide RowOf, DefinitionLine, DefinitionRow, GoodDefinition, Join, JoinAll;
    var row, h := DefinitionRow(t), JoinAll(RestoredHeaders(t.fields));
    DefinitionParts(t);
    RowOfDefinition(t.name, h);
    SplitJoin(row, DELIM);
    JoinClean(row, '\n');
    NewlineInParts(t.name, h);
  }

  lemma NewlineInParts(name: string, rest: string)
    ensures '\n' in name + "=" + rest <==> '\n' in name + [DELIM] + rest
  {
  }

  lemma DefinitionStarts(t: Content)
    requires GoodDefinition(t)
    ensures DefinitionLine(t) != "" && !IsSpace(DefinitionLine(t)[0])
  {
    hide IsSpace, EqIgnoreCase, JoinAll, Headers, GoodText;
  }

  function DefinitionRows(ts: seq<Content>): (r: seq<seq<string>>)
    ensures |r| == |ts| && forall i :: 0 <= i < |ts| ==> r[i] == DefinitionRow(ts[i])
  {
    seq(|ts|, i requires 0 <= i < |ts| => DefinitionRow(ts[i]))
  }

  lemma {:induction false} DefinitionsRead(ts: seq<Content>, rest: seq<string>)
    requires forall k :: 0 <= k < |ts| ==> GoodDefinition(ts[k])
    ensures RowsOf(Terminated(DefinitionLines(ts) + ([""] + rest)), true) == DefinitionRows(ts)
  {
    hide RowsOf, RowOf, Terminated, GoodDefinition, DefinitionLine, DefinitionRow, IsSpace;
    if ts == [] {
      assert DefinitionLines(ts) + ([""] + rest) == [""] + rest;
      BlankLineEndsRows(rest, true);
    } else {
      DefinitionRead(ts[0]);
      DefinitionStarts(ts[0]);
      DefinitionsRead(ts[1..], rest);
      NextRow(DefinitionLine(ts[0]), DefinitionLines(ts[1..]) + ([""] + rest), true);
      assert DefinitionLines(ts) + ([""] + rest)
        == [DefinitionLine(ts[0])] + (DefinitionLines(ts[1..]) + ([""] + rest));
      assert DefinitionRows(ts) == [DefinitionRow(ts[0])] + DefinitionRows(ts[1..]);
    }
  }

  // ----- loading

  lemma SectionOfOther(t: Content, ts: seq<Content>, k: nat)
    requires GoodTable(t, ts) && k < |ts| && !EqIgnoreCase(t.name, ts[k].name)
    ensures NoHeader(Section(t), ts[k].name)
  {
    hide IsHeader, JoinAll, IsSpace;
    OtherHeader(t.name, ts[k].name);
    if !t.temporary {
      var rows := RowLines(t.rows);
      forall i | 0 <= i < |rows|
        ensures !IsHeader(rows[i], ts[k].name)
      {
        assert GoodRow(t.rows[i], ts);
      }
      NoHeaderInBlank(ts[k].name);
      JoinedNoHeader(["[" + t.name + "]"], rows, ts[k].name);
      JoinedNoHeader(["[" + t.name + "]"] + rows, [""], ts[k].name);
    }
  }

  lemma NoHeaderInBlank(name: string)
    ensures NoHeader([""], name)
  {
  }

  /** What follows the header of table k among the sections from i on. */
  function BehindSection(ts: seq<Content>, k: nat): Option<seq<string>>
    requires k < |ts|
  {
    if ts[k].temporary then None
    else Some(Terminated(RowLines(ts[k].rows) + ([""] + Sections(ts[k + 1..]))))
  }

  lemma NothingBehind(name: string)
    ensures Behind(Terminated([]), name) == None
  {
  }

  lemma NamesDiffer(ts: seq<Content>, i: nat, k: nat)
    requires NamesDistinct(ts) && i < k < |ts|
    ensures !EqIgnoreCase(ts[i].name, ts[k].name) && !EqIgnoreCase(ts[k].name, ts[i].name)
  {
  }

  lemma {:induction false} SectionAbsent(ts: seq<Content>, i: nat, k: nat)
    requires WellFormed(ts) && i <= |ts| && k < i
    ensures Behind(Terminated(Sections(ts[i..])), ts[k].name) == None
    decreases |ts| - i
  {
    hide GoodTable, Terminated, Behind, EqIgnoreCase, Section;
    if i == |ts| {
      NothingBehind(ts[k].name);
    } else {
      NamesDiffer(ts, k, i);
      SectionOfOther(ts[i], ts, k);
      SkipLines(Section(ts[i]), Sections(ts[i + 1..]), ts[k].name);
      assert ts[i..][1..] == ts[i + 1..];
      SectionAbsent(ts, i + 1, k);
    }
  }

  /** Among the sections, a search for a table stops at its own header, or nowhere if the
      table is temporary. */
  lemma {:induction false} SectionFound(ts: seq<Content>, i: nat, k: nat)
    requires WellFormed(ts) && i <= k < |ts|
    ensures Behind(Terminated(Sections(ts[i..])), ts[k].name) == BehindSection(ts, k)
    decreases |ts| - i
  {
    hide GoodTable, Terminated, Behind, EqIgnoreCase, RowLines, Section;
    assert ts[i..][1..] == ts[i + 1..] && ts[i..][0] == ts[i];
    var rest := Sections(ts[i + 1..]);
    if i < k {
      NamesDiffer(ts, i, k);
      SectionOfOther(ts[i], ts, k);
      SkipLines(Section(ts[i]), rest, ts[k].name);
      SectionFound(ts, i + 1, k);
    } else {
      SectionAbsent(ts, i + 1, k);
      OwnSection(ts[k], rest);
    }
  }

  lemma OwnSection(t: Content, rest: seq<string>)
    ensures Behind(Terminated(Section(t) + rest), t.name)
      == if t.temporary then Behind(Terminated(rest), t.name) else Some(Terminated(RowLines(t.rows) + ([""] + rest)))
  {
    hide Behind, Terminated, RowLines;
    if t.temporary {
      assert Section(t) + rest == rest;
    } else {
      HeaderFirst(t.name, RowLines(t.rows) + ([""] + rest));
      assert Section(t) + rest == ["[" + t.name + "]"] + (RowLines(t.rows) + ([""] + rest));
    }
  }

  lemma HeaderFirst(name: string, lines: seq<string>)
    ensures Behind(Terminated(["[" + name + "]"] + lines), name) == Some(Terminated(lines))
  {
    OwnHeader(name);
    HeaderOfLine("[" + name + "]", name);
    assert Terminated(["[" + name + "]"] + lines)[1..] == Terminated(lines);
  }

  lemma {:induction false} NoHeaderBefore(ts: seq<Content>, k: nat, n: nat)
    requires WellFormed(ts) && k < |ts| && n <= |ts|
    ensures NoHeader(DefinitionLines(ts[n..]), ts[k].name)
    decreases |ts| - n
  {
    hide IsHeader, EqIgnoreCase, GoodRow, JoinAll;
    if n < |ts| {
      DefinitionIsNoHeader(ts[n].name, JoinAll(Headers(ts[n].fields)), ts[k].name);
      assert ts[n..][1..] == ts[n + 1..];
      NoHeaderBefore(ts, k, n + 1);
    }
  }

  /** The lines in front of the sections hold no header of a table. */
  lemma FrontHasNoHeader(ts: seq<Content>, k: nat)
    requires WellFormed(ts) && k < |ts|
    ensures NoHeader(["[" + DEFINITION + "]"] + DefinitionLines(ts) + [""], ts[k].name)
  {
    hide GoodRow, JoinAll, NamesDistinct, IsHeader, EqIgnoreCase;
    var name, defs := ts[k].name, DefinitionLines(ts);
    assert ts[0..] == ts;
    assert GoodTable(ts[k], ts);
    NoHeaderBefore(ts, k, 0);
    FirstLines(name);
    JoinedNoHeader(["[" + DEFINITION + "]"], defs, name);
    JoinedNoHeader(["[" + DEFINITION + "]"] + defs, [""], name);
  }

  lemma FirstLines(name: string)
    requires !EqIgnoreCase(name, DEFINITION)
    ensures NoHeader(["[" + DEFINITION + "]"], name) && NoHeader([""], name)
  {
    hide IsHeader, Lower;
    assert ']' !in DEFINITION;
    NoHeaderInBlank(name);
    OtherHeader(DEFINITION, name);
  }

  lemma JoinedNoHeader(p: seq<string>, q: seq<string>, name: string)
    requires NoHeader(p, name) && NoHeader(q, name)
    ensures NoHeader(p + q, name)
  {
  }

  /** The rows read for a table are its rows, or none if it is temporary. */
  lemma RowsOfTable(ts: seq<Content>, k: nat)
    requires WellFormed(ts) && k < |ts|
    ensures Read(Terminated(DumpLines(ts)), ts[k].name, false) == Restored(ts[k]).rows
  {
    hide Terminated, Behind, NoHeader, DefinitionLines, Sections, RowLines, RowsOf, GoodRow, GoodDefinition,
      NamesDistinct;
    var p := ["[" + DEFINITION + "]"] + DefinitionLines(ts) + [""];
    assert DumpLines(ts) == p + Sections(ts);
    FrontHasNoHeader(ts, k);
    SkipLines(p, Sections(ts), ts[k].name);
    assert ts[0..] == ts;
    SectionFound(ts, 0, k);
    if !ts[k].temporary {
      RowsRead(ts[k].rows, Sections(ts[k + 1..]), ts);
    }
  }

  lemma RowsOfDefinition(ts: seq<Content>)
    requires WellFormed(ts)
    ensures Read(Terminated(DumpLines(ts)), DEFINITION, true) == DefinitionRows(ts)
  {
    HeaderFirst(DEFINITION, DefinitionLines(ts) + ([""] + Sections(ts)));
    DefinitionsRead(ts, Sections(ts));
  }

  lemma WidenedEnough(fields: seq<Option<string>>, n: nat)
    requires n <= |fields|
    ensures Widened(fields, n) == fields
  {
  }

  lemma {:induction false} AddedWithin(t: Content, rows: seq<seq<string>>)
    requires forall i :: 0 <= i < |rows| ==> |rows[i]| <= |t.fields|
    ensures AddedAll(t, rows) == t.(rows := t.rows + rows)
    decreases rows
  {
    if rows == [] {
      assert t.rows + rows == t.rows;
    } else {
      WidenedEnough(t.fields, |rows[0]|);
      AddedWithin(t.Added(rows[0]), rows[1..]);
      assert t.rows + [rows[0]] + rows[1..] == t.rows + rows;
    }
  }

  lemma RestoredWidth(t: Content, ts: seq<Content>)
    requires GoodTable(t, ts)
    ensures forall i :: 0 <= i < |Restored(t).rows| ==> |Restored(t).rows[i]| <= |RestoredHeaders(t.fields)|
  {
  }

  /** A new table with the columns and rows of t. */
  lemma TableRebuilt(t: Content, ts: seq<Content>)
    requires GoodTable(t, ts)
    ensures AddedAll(Fresh(t.name).(fields := Named(RestoredHeaders(t.fields))), Restored(t).rows) == Restored(t)
  {
    hide GoodTable;
    RestoredWidth(t, ts);
    AddedWithin(Fresh(t.name).(fields := Named(RestoredHeaders(t.fields))), Restored(t).rows);
  }

  /** Loading the definition of table k adds the table. */
  lemma TableLoaded(ts: seq<Content>, k: nat)
    requires WellFormed(ts) && k < |ts|
    ensures LoadTable(RestoredAll(ts[..k]), Terminated(DumpLines(ts)), DefinitionRow(ts[k]))
      == RestoredAll(ts[..k + 1])
  {
    hide Terminated, Read, DumpLines, RestoredHeaders, EqIgnoreCase, GoodRow, AddedAll, Restored;
    var before, t := RestoredAll(ts[..k]), ts[k];
    assert t.name != "" by {
      assert GoodTable(t, ts);
    }
    NameUnused(ts, k);
    RowsOfTable(ts, k);
    TableRebuilt(t, ts);
    assert DefinitionRow(t)[1..] == RestoredHeaders(t.fields);
    assert (before + [Fresh(t.name)])[k := Restored(t)] == before + [Restored(t)];
    assert RestoredAll(ts[..k + 1]) == before + [Restored(t)];
  }

  lemma NameUnused(ts: seq<Content>, k: nat)
    requires NamesDistinct(ts) && k < |ts|
    ensures Find(RestoredAll(ts[..k]), ts[k].name) == None
  {
  }

  lemma {:induction false} TablesLoaded(ts: seq<Content>, k: nat)
    requires WellFormed(ts) && k <= |ts|
    ensures LoadTables(RestoredAll(ts[..k]), Terminated(DumpLines(ts)), DefinitionRows(ts)[k..]) == RestoredAll(ts)
    decreases |ts| - k
  {
    hide Terminated, DumpLines, GoodTable, LoadTable, DefinitionRow, Restored;
    if k == |ts| {
      assert ts[..k] == ts;
    } else {
      TableLoaded(ts, k);
      TablesLoaded(ts, k + 1);
      assert DefinitionRows(ts)[k..][1..] == DefinitionRows(ts)[k + 1..];
    }
  }

  lemma RowClean(row: seq<string>, ts: seq<Content>)
    requires GoodRow(row, ts)
    ensures '\n' !in JoinAll(row)
  {
    RowRead(row);
  }

  ghost predicate Clean(lines: seq<string>) {
    forall i :: 0 <= i < |lines| ==> '\n' !in lines[i]
  }

  lemma CleanBoth(p: seq<string>, q: seq<string>)
    requires Clean(p) && Clean(q)
    ensures Clean(p + q)
  {
  }

  lemma SectionClean(t: Content, all: seq<Content>)
    requires GoodTable(t, all)
    ensures Clean(Section(t))
  {
    hide GoodRow, JoinAll, IsSpace, EqIgnoreCase;
    if !t.temporary {
      var rows := RowLines(t.rows);
      forall i | 0 <= i < |rows|
        ensures '\n' !in rows[i]
      {
        RowClean(t.rows[i], all);
      }
      assert '\n' !in "[" + t.name + "]";
      CleanBoth(["[" + t.name + "]"], rows);
      CleanBoth(["[" + t.name + "]"] + rows, [""]);
    }
  }

  lemma {:induction false} DumpedLinesClean(ts: seq<Content>, all: seq<Content>)
    requires forall k :: 0 <= k < |ts| ==> GoodTable(ts[k], all)
    ensures Clean(DefinitionLines(ts)) && Clean(Sections(ts))
  {
    hide GoodDefinition, DefinitionLine, Section, RowOf;
    if ts != [] {
      DumpedLinesClean(ts[1..], all);
      DefinitionRead(ts[0]);
      SectionClean(ts[0], all);
      CleanBoth([DefinitionLine(ts[0])], DefinitionLines(ts[1..]));
      CleanBoth(Section(ts[0]), Sections(ts[1..]));
    }
  }

  lemma DumpClean(ts: seq<Content>)
    requires WellFormed(ts)
    ensures Clean(DumpLines(ts))
  {
    hide GoodTable, DefinitionLines, Sections;
    DumpedLinesClean(ts, ts);
    CleanBoth([""], Sections(ts));
    CleanBoth(DefinitionLines(ts), [""] + Sections(ts));
  }

  /** r is what a table comes back as: its name; its rows, unless it was temporary; its columns,
      where a name stays and an unnamed one is named by its number, counted from 1; and one
      column with an empty name if it had none. */
  ghost predicate ComesBack(t: Content, r: Content) {
    && r.name == t.name && r.rows == (if t.temporary then [] else t.rows)
    && r.currentRow == -1 && r.complete && !r.temporary
    && (t.fields == [] ==> r.fields == [Some("")])
    && (t.fields != [] ==> |r.fields| == |t.fields|)
    && (forall j :: 0 <= j < |t.fields| && t.fields[j].Some? ==> r.fields[j] == t.fields[j])
    && (forall j :: 0 <= j < |t.fields| && t.fields[j] == None ==> NumberedFrom1(r.fields[j], j))
  }

  /** The column behind j others is named by a number: its own. */
  ghost predicate NumberedFrom1(field: Option<string>, j: nat) {
    field == Some(Decimal(j + 1)) && (j < INT_MAX ==> StrToInt(field.value) == Some(j + 1))
  }

  lemma RestoredComesBack(t: Content)
    ensures ComesBack(t, Restored(t))
  {
    hide StrToInt, Decimal;
    forall j | 0 <= j < |t.fields| && t.fields[j] == None
      ensures NumberedFrom1(Restored(t).fields[j], j)
    {
      if j < INT_MAX {
        DecimalReadsBack(j + 1);
      }
    }
  }

  /** The line written for a table among the definitions: the name, an equals sign, and the
      columns between semicolons, unnamed ones by their number counted from 1. */
  lemma DefinitionWritten(t: Content)
    requires t.fields != []
    ensures exists h: seq<string> ::
      && |h| == |t.fields| && DefinitionLine(t) == t.name + "=" + Join(h, ';')
      && (forall j :: 0 <= j < |h| && t.fields[j].Some? ==> h[j] == t.fields[j].value)
      && (forall j :: 0 <= j < |h| && t.fields[j] == None ==> NumberedFrom1(Some(h[j]), j))
  {
    hide StrToInt, Decimal;
    var h := Headers(t.fields);
    forall j | 0 <= j < |h| && t.fields[j] == None
      ensures NumberedFrom1(Some(h[j]), j)
    {
      if j < INT_MAX {
        DecimalReadsBack(j + 1);
      }
    }
    assert DefinitionLine(t) == t.name + "=" + Join(h, ';');
  }

  /** Dumping a well-formed list and loading the text into an empty list gives every table back,
      in order. */
  lemma DumpThenLoad(ts: seq<Content>)
    requires WellFormed(ts)
    ensures var r := Load([], Unlines(DumpLines(ts)));
      |r| == |ts| && forall k :: 0 <= k < |ts| ==> ComesBack(ts[k], r[k])
  {
    hide ComesBack, Restored, DumpLines, Load, Unlines;
    LoadedTables(ts);
    forall k | 0 <= k < |ts|
      ensures ComesBack(ts[k], RestoredAll(ts)[k])
    {
      RestoredComesBack(ts[k]);
    }
  }

  lemma LoadedTables(ts: seq<Content>)
    requires WellFormed(ts)
    ensures Load([], Unlines(DumpLines(ts))) == RestoredAll(ts)
  {
    hide Terminated, WellFormed, LoadTables, DefinitionRow, Restored, Read, FileLines, Unlines, DumpLines;
    DumpClean(ts);
    ReadUnlines(DumpLines(ts));
    RowsOfDefinition(ts);
    TablesLoaded(ts, 0);
    assert ts[..0] == [] && RestoredAll([]) == [];
    assert DefinitionRows(ts)[0..] == DefinitionRows(ts);
  }
}
