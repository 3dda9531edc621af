/** process_line, as far as it concerns the tables. */
module TableUpdates {
  import opened Wrappers
  import opened CStrings
  import opened Fields
  import opened Latin1
  import opened Tables
  import opened TableLists
  import opened Lines

  lemma {:induction false} Utf8HasNoNul(line: seq<Byte>)
    requires NUL !in line
    ensures NUL !in ToUtf8(line)
  {
    if line != [] {
      assert line[0] in line && forall c :: c in line[1..] ==> c in line;
      Utf8HasNoNul(line[1..]);
      assert NUL !in Encode(line[0]);
    }
  }

  /** The end of the table name in a converted line (lines 171-176). */
  method EndOfName(s: array<Byte>, ghost text: seq<Byte>) returns (c: nat)
    requires s[..] == text + [NUL] && NUL !in text
    ensures c == FirstAt(text, SEPARATOR) && c < s.Length
  {
    assert forall k :: 0 <= k < |text| ==> s[k] == s[..][k] == text[k] && text[k] in text;
    assert s[|text|] == s[..][|text|] == NUL;
    c := 0;
    while s[c] != NUL && s[c] != SEPARATOR
      invariant 0 <= c <= |text| && forall k :: 0 <= k < c ==> text[k] != SEPARATOR
      decreases |text| - c
    {
      c := c + 1;
    }
  }

  lemma EmptyLine()
    ensures Parse([]) == None
  {
  }

  lemma PrefixChars(s: seq<Byte>, text: seq<Byte>, c: nat)
    requires s == text + [NUL] && 2 <= c < |text| && NUL !in text
    ensures s[c - 1] == text[c - 1] && s[..c] == text[..c] && s[..c - 1] == text[..c - 1]
    ensures s[c + 1..|s| - 1] == text[c + 1..] && NUL !in text[c + 1..]
  {
  }

  /** Converts a line and takes it apart (lines 166-196). */
  method ParseLine(line: seq<Byte>) returns (l: Option<Line>)
    requires NUL !in line
    ensures l == Parse(line)
    ensures l.Some? ==> NUL !in l.value.row
  {
    hide ToUtf8, FirstAt;
    EmptyLine();
    if |line| == 0 {
      return None;
    }
    ghost var text := ToUtf8(line);
    Utf8HasNoNul(line);
    var s := StrdupIso8859ToUtf8(line);
    var c := EndOfName(s, text);
    if c == s.Length - 1 || c < 2 {
      return None;
    }
    PrefixChars(s[..], text, c);
    var lastCharIndex := c - 1;
    assert s[lastCharIndex] == s[..][c - 1];
    var isLastLine := s[lastCharIndex] == '0';
    var isResponseLine := !isLastLine && s[lastCharIndex] != '1';
    var kind := if isLastLine then Last else if isResponseLine then Response else More;
    var name := if isResponseLine then s[..c] else s[..c - 1];
    l := Some(Line(name, kind, s[lastCharIndex + 2..s.Length - 1]));
  }

  /** Adds the row of a line to a table (lines 206-213). */
  method ReceiveRow(tbl: Table, l: Line) returns (completed: seq<Completion>)
    requires NUL !in l.row
    modifies tbl
    ensures tbl.View() == Receive(old(tbl.View()), l) && tbl.name == old(tbl.name)
    ensures completed == if l.Completes() then [Completion(tbl.name, tbl.rows)] else []
  {
    hide Split, Widened;
    if l.kind == Response || tbl.complete {
      tbl.Clear();
    }
    tbl.AddRow(l.row, SEPARATOR);
    tbl.complete := l.kind == Response || l.kind == Last;
    completed := if tbl.complete then [Completion(tbl.name, tbl.rows)] else [];
  }

  /** Finds or creates the table a line names and adds the row (lines 198-213). */
  method UpdateTable(tables: TableList, l: Line) returns (completed: seq<Completion>)
    requires tables.Valid() && NUL !in l.row
    modifies tables, tables.tables
    ensures tables.Valid()
    ensures forall k :: 0 <= k < |tables.tables| ==> tables.tables[k] in old(tables.tables) || fresh(tables.tables[k])
    ensures tables.View() == Apply(old(tables.View()), l)
    ensures completed == CompletedBy(old(tables.View()), l)
  {
    hide Receive, NamesDistinct;
    var tbl, i := tables.TableNamed(l.name);
    label found:
    completed := ReceiveRow(tbl, l);
    tables.OnlyOneChanged@found(i);
  }
}
