/** The file form of a list of tables: a section of definitions, one line a table, and a
    section of rows for each table that is not temporary. */
module TableText {
  import opened Wrappers
  import opened CStrings
  import opened Fields
  import opened Tables
  import opened TableLists

  const DELIM: char := ';'
  const DEFINITION := "Definition"

  // ----- printing

  /** A column's name, or its number counted from 1. */
  function HeaderText(fields: seq<Option<string>>, j: nat): string
    requires j < |fields|
  {
    if fields[j].Some? then fields[j].value else Decimal(j + 1)
  }

  function Headers(fields: seq<Option<string>>): (r: seq<string>)
    ensures |r| == |fields|
  {
    seq(|fields|, j requires 0 <= j < |fields| => HeaderText(fields, j))
  }

  function JoinAll(fields: seq<string>): string {
    if fields == [] then "" else Join(fields, DELIM)
  }

  function DefinitionLine(t: Content): string {
    t.name + "=" + JoinAll(Headers(t.fields))
  }

  function DefinitionLines(ts: seq<Content>): seq<string> {
    if ts == [] then [] else [DefinitionLine(ts[0])] + DefinitionLines(ts[1..])
  }

  function RowLines(rows: seq<seq<string>>): (r: seq<string>)
    ensures |r| == |rows| && forall i :: 0 <= i < |rows| ==> r[i] == JoinAll(rows[i])
  {
    if rows == [] then [] else [JoinAll(rows[0])] + RowLines(rows[1..])
  }

  function Section(t: Content): seq<string> {
    if t.temporary then [] else ["[" + t.name + "]"] + RowLines(t.rows) + [""]
  }

  function Sections(ts: seq<Content>): seq<string> {
    if ts == [] then [] else Section(ts[0]) + Sections(ts[1..])
  }

  /** The lines oris_tables_dump_to_file writes. */
  function DumpLines(ts: seq<Content>): seq<string> {
    ["[" + DEFINITION + "]"] + (DefinitionLines(ts) + ([""] + Sections(ts)))
  }

  /** Lines as a text, each ended by a newline. */
  function Unlines(lines: seq<string>): string {
    if lines == [] then "" else lines[0] + "\n" + Unlines(lines[1..])
  }

  // ----- reading

  /** The length of the first line of a text, with its newline. */
  function LineLength(text: string): (n: nat)
    ensures text != "" ==> 0 < n <= |text|
  {
    if text == "" then 0 else if text[0] == '\n' then 1 else 1 + LineLength(text[1..])
  }

  /** The lines of a text as getline hands them out, with their newlines. */
  function FileLines(text: string): seq<string> {
    if text == "" then [] else [text[..LineLength(text)]] + FileLines(text[LineLength(text)..])
  }

  /** Is this line the header of the section of a table, ignoring case? */
  predicate IsHeader(line: string, name: string) {
    |line| >= |name| + 2 && line[0] == '[' && EqIgnoreCase(line[1..|name| + 1], name) && line[|name| + 1] == ']'
  }

  /** The lines behind the first header of a table. */
  function Behind(lines: seq<string>, name: string): Option<seq<string>> {
    if lines == [] then None
    else if IsHeader(lines[0], name) then Some(lines[1..])
    else Behind(lines[1..], name)
  }

  /** A line without the control character at its end. */
  function Stripped(line: string): string {
    if line != "" && IsCntrl(line[|line| - 1]) then line[..|line| - 1] else line
  }

  /** The row a line is read as; in the definitions the first '=' counts as a delimiter. */
  function RowOf(line: string, definition: bool): (r: seq<string>)
    ensures r != []
  {
    var s := Stripped(line);
    var eq := FirstAt(s, '=');
    Split(if definition && eq < |s| then s[eq := DELIM] else s, DELIM)
  }

  /** The rows up to the first line that starts with white space. */
  function RowsOf(lines: seq<string>, definition: bool): (r: seq<seq<string>>)
    ensures forall i :: 0 <= i < |r| ==> r[i] != []
  {
    if lines == [] || (lines[0] != "" && IsSpace(lines[0][0])) then []
    else [RowOf(lines[0], definition)] + RowsOf(lines[1..], definition)
  }

  /** The rows oris_read_table_from_file reads for a name. */
  function Read(lines: seq<string>, name: string, definition: bool): (r: seq<seq<string>>)
    ensures forall i :: 0 <= i < |r| ==> r[i] != []
  {
    match Behind(lines, name)
    case None => []
    case Some(rest) => RowsOf(rest, definition)
  }

  function AddedAll(t: Content, rows: seq<seq<string>>): Content
    decreases rows
  {
    if rows == [] then t else AddedAll(t.Added(rows[0]), rows[1..])
  }

  function Named(fields: seq<string>): (r: seq<Option<string>>)
    ensures |r| == |fields| && forall j :: 0 <= j < |r| ==> r[j] == Some(fields[j])
  {
    seq(|fields|, j requires 0 <= j < |fields| => Some(fields[j]))
  }

  /** The list once the definition def has been followed: the table is found or created,
      its columns are named as def says and the rows of its section are added. */
  function LoadTable(ts: seq<Content>, lines: seq<string>, def: seq<string>): seq<Content>
    requires def != []
  {
    if def[0] == "" then ts
    else
      var (all, i) := WithTable(ts, def[0]);
      all[i := AddedAll(all[i].(fields := Named(def[1..])), Read(lines, all[i].name, false))]
  }

  function LoadTables(ts: seq<Content>, lines: seq<string>, defs: seq<seq<string>>): seq<Content>
    requires forall i :: 0 <= i < |defs| ==> defs[i] != []
    decreases defs
  {
    if defs == [] then ts else LoadTables(LoadTable(ts, lines, defs[0]), lines, defs[1..])
  }

  /** What oris_tables_load_from_file makes of a list and a file. */
  function Load(ts: seq<Content>, text: string): seq<Content> {
    var lines := FileLines(text);
    LoadTables(ts, lines, Read(lines, DEFINITION, true))
  }
}
