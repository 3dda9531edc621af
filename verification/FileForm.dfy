/** The file form of tables, in texts written out. */
module FileForm {
  import opened Wrappers
  import opened CStrings
  import opened Fields
  import opened Tables
  import opened TableLists
  import opened TableText

  /** The lines of the file for two tables, one of them temporary. */
  lemma LinesWritten(complete: bool, cursor: int, cursor': int)
    ensures var t := Content("a", [["x", "y"], ["", "z"]], [None, Some("k")], cursor, complete, false);
      var u := Content("b", [["x"]], [None], cursor', complete, true);
      DumpLines([t, u]) == ["[Definition]", "a=1;k", "b=1", "", "[a]", "x;y", ";z", ""]
  {
    var t := Content("a", [["x", "y"], ["", "z"]], [None, Some("k")], cursor, complete, false);
    var u := Content("b", [["x"]], [None], cursor', complete, true);
    assert Digits(1) == "1";
    assert Headers(t.fields) == ["1", "k"] && Headers(u.fields) == ["1"];
    TwoFields("1", "k");
    TwoFields("x", "y");
    TwoFields("", "z");
    TwoTables(t, u);
    SectionOfTwo(t, ["x", "y"], ["", "z"]);
    assert DefinitionLine(t) == "a=1;k" && DefinitionLine(u) == "b=1";
    assert "[" + t.name + "]" == "[a]" && Section(u) == [];
    assert "x" + ";" + "y" == "x;y" && "" + ";" + "z" == ";z";
    assert Section(t) == ["[a]", "x;y", ";z", ""];
    hide DumpLines, DefinitionLine, Section;
    assert ["[Definition]", "a=1;k", "b=1", ""] + ["[a]", "x;y", ";z", ""] + []
      == ["[Definition]", "a=1;k", "b=1", "", "[a]", "x;y", ";z", ""];
  }

  lemma TwoFields(a: string, b: string)
    ensures JoinAll([a, b]) == a + ";" + b && JoinAll([a]) == a
  {
    assert [a, b][1..] == [b];
    assert Join([b], ';') == b && Join([a, b], ';') == a + [';'] + Join([b], ';');
  }

  lemma TwoTables(t: Content, u: Content)
    ensures DumpLines([t, u]) == ["[Definition]", DefinitionLine(t), DefinitionLine(u), ""] + Section(t) + Section(u)
  {
    hide DefinitionLine, Section;
    var none: seq<Content> := [];
    assert [t, u][1..] == [u] && [u][1..] == none;
    assert DefinitionLines(none) == [] && Sections(none) == [];
    assert DefinitionLines([u]) == [DefinitionLine(u)] && Sections([u]) == Section(u);
    assert DefinitionLines([t, u]) == [DefinitionLine(t), DefinitionLine(u)];
    assert Sections([t, u]) == Section(t) + Section(u);
    assert "[" + DEFINITION + "]" == "[Definition]";
  }

  lemma SectionOfTwo(t: Content, a: seq<string>, b: seq<string>)
    requires !t.temporary && t.rows == [a, b]
    ensures Section(t) == ["[" + t.name + "]", JoinAll(a), JoinAll(b), ""]
  {
    hide JoinAll;
    var none: seq<seq<string>> := [];
    assert t.rows[1..] == [b] && [b][1..] == none;
    assert RowLines(none) == [] && RowLines([b]) == [JoinAll(b)];
  }

  /** Each line is written with a newline behind it. */
  lemma UnlinesFirst(line: string, rest: seq<string>)
    ensures Unlines([line] + rest) == line + "\n" + Unlines(rest) && Unlines([]) == ""
  {
    assert ([line] + rest)[1..] == rest;
  }

  // ----- reading

  /** A header is a bracket, a name in any case, and a bracket; anything may follow. */
  lemma HeaderIs(line: string, name: string)
    ensures IsHeader(line, name) <==>
      exists n: string, rest: string :: line == "[" + n + "]" + rest && EqIgnoreCase(n, name)
  {
    hide EqIgnoreCase;
    if IsHeader(line, name) {
      var n, rest := line[1..|name| + 1], line[|name| + 2..];
      assert line == "[" + n + "]" + rest;
    }
    forall n: string, rest: string | line == "[" + n + "]" + rest && EqIgnoreCase(n, name)
      ensures IsHeader(line, name)
    {
      EqualLengths(n, name);
      assert line[1..|n| + 1] == n;
    }
  }

  lemma EqualLengths(a: string, b: string)
    ensures EqIgnoreCase(a, b) ==> |a| == |b|
  {
  }

  /** The section of a table is what follows its first header. */
  lemma {:induction false} BehindHeader(before: seq<string>, header: string, rest: seq<string>, name: string)
    requires (forall i :: 0 <= i < |before| ==> !IsHeader(before[i], name)) && IsHeader(header, name)
    ensures Behind(before + [header] + rest, name) == Some(rest) && Behind(before, name) == None
  {
    var lines := before + [header] + rest;
    if before == [] {
      assert lines[1..] == rest;
    } else {
      BehindHeader(before[1..], header, rest, name);
      assert lines[1..] == before[1..] + [header] + rest;
    }
  }

  /** A line loses a control character at its end, a newline or any other; the rest is split at
      semicolons. In a definition the first equals sign counts as one. */
  lemma RowOfLine(s: string, c: char)
    ensures (c as int < 32 || c as int == 127) ==> RowOf(s + [c], false) == Split(s, ';')
    ensures !(c as int < 32 || c as int == 127) ==> RowOf(s + [c], false) == Split(s + [c], ';')
    ensures '=' !in s && (c as int < 32 || c as int == 127) ==> RowOf(s + [c], true) == Split(s, ';')
  {
    hide Split;
    assert (s + [c])[..|s|] == s;
    assert '=' !in s ==> FirstAt(s, '=') == |s|;
  }

  lemma DefinitionOfLine(name: string, rest: string, c: char)
    requires '=' !in name && (c as int < 32 || c as int == 127)
    ensures RowOf(name + "=" + rest + [c], true) == Split(name + ";" + rest, ';')
  {
    hide Split;
    var line := name + "=" + rest;
    assert (line + [c])[..|line|] == line;
    FirstAtIs(name, '=', rest);
    assert line[|name| := ';'] == name + ";" + rest;
  }

  /** Reading rows ends at the first line that starts with white space, and only there: also
      headers are read as rows. */
  lemma {:induction false} RowsUpTo(lines: seq<string>, last: string, rest: seq<string>, definition: bool)
    requires forall i :: 0 <= i < |lines| ==>
      lines[i] == "" || lines[i][0] !in {' ', '\t', '\n', 11 as char, 12 as char, '\r'}
    requires last != "" && last[0] in {' ', '\t', '\n', 11 as char, 12 as char, '\r'}
    ensures RowsOf(lines + [last] + rest, definition) == RowsOf(lines, definition)
    ensures |RowsOf(lines, definition)| == |lines|
    ensures forall i :: 0 <= i < |lines| ==> RowsOf(lines, definition)[i] == RowOf(lines[i], definition)
  {
    hide RowOf;
    var all := lines + [last] + rest;
    if lines == [] {
      SpaceIs(last[0]);
    } else {
      if lines[0] != "" {
        SpaceIs(lines[0][0]);
      }
      RowsUpTo(lines[1..], last, rest, definition);
      assert all[1..] == lines[1..] + [last] + rest;
    }
  }

  /** A line that the file ends in without a newline is read, too. */
  lemma {:induction false} LastLineRead(lines: seq<string>, last: string)
    requires (forall i :: 0 <= i < |lines| ==> '\n' !in lines[i]) && '\n' !in last && last != ""
    ensures var r := FileLines(Unlines(lines) + last);
      && |r| == |lines| + 1 && r[|lines|] == last
      && forall i :: 0 <= i < |lines| ==> r[i] == lines[i] + "\n"
  {
    hide LineLength, Unlines;
    if lines == [] {
      UnlinesFirst("", []);
      LineEnds(last, "");
      assert last + "" == last && Unlines(lines) + last == last;
      FirstOfFile(last, "");
    } else {
      LastLineRead(lines[1..], last);
      var rest := Unlines(lines[1..]) + last;
      UnlinesFirst(lines[0], lines[1..]);
      assert lines == [lines[0]] + lines[1..];
      assert Unlines(lines) + last == lines[0] + "\n" + rest;
      LineEnds(lines[0], "\n" + rest);
      assert lines[0] + ("\n" + rest) == (lines[0] + "\n") + rest;
      FirstOfFile(lines[0] + "\n", rest);
    }
  }

  lemma FirstOfFile(line: string, rest: string)
    requires line != "" && LineLength(line + rest) == |line|
    ensures FileLines(line + rest) == [line] + FileLines(rest) && FileLines("") == []
  {
    hide LineLength;
    assert (line + rest)[..|line|] == line && (line + rest)[|line|..] == rest;
  }

  lemma {:induction false} LineEnds(line: string, rest: string)
    requires '\n' !in line && (rest == "" || rest[0] == '\n')
    ensures LineLength(line + rest) == |line| + if rest == "" then 0 else 1
  {
    var s := line + rest;
    if line == "" {
      assert s == rest;
    } else {
      assert line[0] in line && s[1..] == line[1..] + rest;
      LineEnds(line[1..], rest);
    }
  }

  /** Following a definition: a table that is there keeps its rows and flags, gets the columns
      named, and the rows read come behind its own; the others stay. A name that is empty is
      passed over. */
  lemma DefinitionFollowed(ts: seq<Content>, lines: seq<string>, name: string, columns: seq<string>, i: nat)
    requires i < |ts| && Find(ts, name) == Some(i) && name != ""
    ensures var r := LoadTable(ts, lines, [name] + columns); var rows := Read(lines, ts[i].name, false);
      && |r| == |ts| && (forall k :: 0 <= k < |ts| && k != i ==> r[k] == ts[k])
      && r[i].rows == ts[i].rows + rows && r[i].name == ts[i].name && r[i].currentRow == ts[i].currentRow
      && r[i].complete == ts[i].complete && r[i].temporary == ts[i].temporary
      && |r[i].fields| >= |columns| && forall j :: 0 <= j < |columns| ==> r[i].fields[j] == Some(columns[j])
    ensures LoadTable(ts, lines, [""] + columns) == ts
  {
    hide Read, Find;
    var t := ts[i].(fields := Named(columns));
    assert ([name] + columns)[1..] == columns;
    AddedAllParts(t, Read(lines, ts[i].name, false));
  }

  lemma {:induction false} AddedAllParts(t: Content, rows: seq<seq<string>>)
    ensures var r := AddedAll(t, rows);
      && r.rows == t.rows + rows && r.name == t.name && r.currentRow == t.currentRow
      && r.complete == t.complete && r.temporary == t.temporary && t.fields <= r.fields
    decreases rows
  {
    if rows == [] {
      assert t.rows + rows == t.rows;
    } else {
      AddedAllParts(t.Added(rows[0]), rows[1..]);
      assert t.rows + rows == t.rows + [rows[0]] + rows[1..];
    }
  }
}
