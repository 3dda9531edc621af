/** What a received line does to the tables. */
module Lines {
  import opened Wrappers
  import opened CStrings
  import opened Fields
  import opened Latin1
  import opened Tables
  import opened TableLists

  const SEPARATOR: char := '|'

  /** A line that ends a block, one that is a whole block, or one that is followed by others. */
  datatype Kind = Last | Response | More

  /** A line that names a table, and the text of its row. */
  datatype Line = Line(name: string, kind: Kind, row: string)
  {
    predicate Completes() {
      kind != More
    }
  }

  /** The part of a line that process_line sees: a C string ends at its first NUL. */
  function CString(payload: seq<Byte>): (r: seq<Byte>)
    ensures NUL !in r && r <= payload
  {
    if payload == [] || payload[0] == NUL then [] else [payload[0]] + CString(payload[1..])
  }

  /** How a line is read (lines 166-196); None if it is ignored. A name that ends in '0' or
      '1' loses that digit, which tells the last line of a block from the others. */
  function Parse(line: seq<Byte>): (r: Option<Line>)
    ensures r.Some? ==> r.value.name != ""
  {
    var s := ToUtf8(line);
    var c := FirstAt(s, SEPARATOR);
    if c == |s| || c < 2 then None
    else
      var kind := if s[c - 1] == '0' then Last else if s[c - 1] == '1' then More else Response;
      Some(Line(if kind == Response then s[..c] else s[..c - 1], kind, s[c + 1..]))
  }

  // ----- how lines are read, in texts written out

  lemma {:induction false} ToUtf8Concat(a: seq<Byte>, b: seq<Byte>)
    ensures ToUtf8(a + b) == ToUtf8(a) + ToUtf8(b)
  {
    if a == [] {
      assert a + b == b;
    } else {
      ToUtf8Concat(a[1..], b);
      assert (a + b)[1..] == a[1..] + b;
    }
  }

  lemma {:induction false} SeparatorStays(n: seq<Byte>)
    ensures SEPARATOR in ToUtf8(n) <==> SEPARATOR in n
    ensures |ToUtf8(n)| >= |n|
  {
    if n != [] {
      SeparatorStays(n[1..]);
      assert n == [n[0]] + n[1..];
      SeparatorEncoded(n[0]);
    }
  }

  lemma SeparatorEncoded(c: Byte)
    ensures SEPARATOR in Encode(c) <==> c == SEPARATOR
    ensures c as int < 128 <==> |Encode(c)| == 1
    ensures c as int < 128 ==> Encode(c) == [c]
    ensures var last := Encode(c)[|Encode(c)| - 1]; (last == '0' <==> c == '0') && (last == '1' <==> c == '1')
  {
  }

  lemma OneByte(c: Byte)
    ensures ToUtf8([c]) == Encode(c)
  {
    assert [c][1..] == [] && Encode(c) + [] == Encode(c);
  }

  /** A line is a name, a separator and a row; the name's last character marks the last line of a
      block by '0' and one that others follow by '1', and then is no part of the name. A line
      whose name would be a single character is ignored. */
  lemma LineRead(n: seq<Byte>, c: Byte, r: seq<Byte>)
    requires '|' !in n && c != '|'
    ensures Parse(n + [c] + ['|'] + r) ==
      if n == [] && c as int < 128 then None
      else if c == '0' then Some(Line(ToUtf8(n), Last, ToUtf8(r)))
      else if c == '1' then Some(Line(ToUtf8(n), More, ToUtf8(r)))
      else Some(Line(ToUtf8(n + [c]), Response, ToUtf8(r)))
  {
    hide ToUtf8, FirstAt, Encode;
    var name, row := ToUtf8(n + [c]), ToUtf8(r);
    ToUtf8Concat(n, [c]);
    OneByte(c);
    SeparatorStays(n);
    SeparatorEncoded(c);
    EmptyConverted();
    ConvertedLine(n + [c], r);
    assert n + [c] + ['|'] + r == (n + [c]) + ['|'] + r;
    FirstAtIs(name, '|', row);
    var s := name + ['|'] + row;
    assert s[..|name|] == name && s[|name| + 1..] == row;
    assert c as int < 128 ==> s[..|name| - 1] == ToUtf8(n);
  }

  lemma EmptyConverted()
    ensures ToUtf8([]) == []
  {
  }

  lemma ConvertedLine(name: seq<Byte>, row: seq<Byte>)
    ensures ToUtf8(name + ['|'] + row) == ToUtf8(name) + ['|'] + ToUtf8(row)
  {
    ToUtf8Concat(name + ['|'], row);
    ToUtf8Concat(name, ['|']);
    OneByte('|');
  }

  /** A line without a separator is ignored, and so is one that starts with it. */
  lemma LineIgnored(line: seq<Byte>, row: seq<Byte>)
    ensures '|' !in line ==> Parse(line) == None
    ensures Parse(['|'] + row) == None
  {
    hide ToUtf8, FirstAt;
    SeparatorStays(line);
    var s := ToUtf8(line);
    FirstSeparator(s);
    ConvertedLine([], row);
    EmptyConverted();
    assert [] + ['|'] + row == ['|'] + row;
    FirstAtIs("", '|', ToUtf8(row));
  }

  lemma FirstSeparator(s: string)
    ensures FirstAt(s, '|') == |s| <==> '|' !in s
  {
    if '|' in s {
      var i :| 0 <= i < |s| && s[i] == '|';
    }
  }

  /** The text that process_line sees reaches up to the first NUL. */
  lemma {:induction false} TextSeen(p: seq<Byte>, q: seq<Byte>)
    requires NUL !in p
    ensures CString(p + [NUL] + q) == p && CString(p) == p
  {
    if p == [] {
      assert (p + [NUL] + q)[0] == NUL;
    } else {
      assert p[0] in p && forall x :: x in p[1..] ==> x in p;
      TextSeen(p[1..], q);
      assert (p + [NUL] + q)[1..] == p[1..] + [NUL] + q;
    }
  }

  /** A completed table, as it is handed to the automation. */
  datatype Completion = Completion(name: string, rows: seq<seq<string>>)

  /** What a line does to its table (lines 206-211). */
  function Receive(t: Content, l: Line): Content {
    var t' := if l.kind == Response || t.complete then t.Cleared() else t;
    t'.Added(Split(l.row, SEPARATOR)).(complete := l.Completes())
  }

  /** A table that was complete, or receives a response, starts anew; the row comes last; the
      last line of a block and a response complete it. */
  lemma ReceiveIs(t: Content, l: Line)
    ensures var r, row, anew := Receive(t, l), Split(l.row, '|'), l.kind == Response || t.complete;
      && r.rows == (if anew then [row] else t.rows + [row])
      && r.complete == (l.kind == Response || l.kind == Last)
      && r.name == t.name && r.temporary == t.temporary
      && r.currentRow == (if anew then -1 else t.currentRow)
      && (anew ==> |r.fields| == |row| && forall j :: 0 <= j < |row| ==> r.fields[j] == None)
      && (!anew ==> t.fields <= r.fields)
  {
    hide Split, Widened;
    WidenedIs([], |Split(l.row, '|')|);
    WidenedIs(t.fields, |Split(l.row, '|')|);
  }

  lemma WidenedIs(fields: seq<Option<string>>, n: nat)
    ensures var r := Widened(fields, n);
      && |r| == (if |fields| < n then n else |fields|) && fields <= r
      && forall i :: |fields| <= i < |r| ==> r[i] == None
  {
  }

  /** What a line does to the list of tables. */
  function Apply(ts: seq<Content>, l: Line): (r: seq<Content>)
  {
    var (all, i) := WithTable(ts, l.name);
    all[i := Receive(all[i], l)]
  }

  /** The completion a line causes, if any. */
  function CompletedBy(ts: seq<Content>, l: Line): seq<Completion> {
    var (all, i) := WithTable(ts, l.name);
    if l.Completes() then [Completion(all[i].name, Receive(all[i], l).rows)] else []
  }

  function Run(ts: seq<Content>, lines: seq<Line>): seq<Content> {
    if lines == [] then ts else Apply(Run(ts, lines[..|lines| - 1]), lines[|lines| - 1])
  }

  function Completions(ts: seq<Content>, lines: seq<Line>): seq<Completion> {
    if lines == [] then []
    else
      var before := lines[..|lines| - 1];
      Completions(ts, before) + CompletedBy(Run(ts, before), lines[|lines| - 1])
  }

  // ----- one table among others

  function Lookup(ts: seq<Content>, name: string): Option<Content> {
    match Find(ts, name) case None => None case Some(i) => Some(ts[i])
  }

  /** The lines that name a table, ignoring case. */
  function Naming(lines: seq<Line>, name: string): (r: seq<Line>)
    ensures forall i :: 0 <= i < |r| ==> EqIgnoreCase(r[i].name, name)
  {
    if lines == [] then []
    else
      var l := lines[|lines| - 1];
      Naming(lines[..|lines| - 1], name) + if EqIgnoreCase(l.name, name) then [l] else []
  }

  function About(completions: seq<Completion>, name: string): seq<Completion> {
    if completions == [] then []
    else
      var c := completions[|completions| - 1];
      About(completions[..|completions| - 1], name) + if EqIgnoreCase(c.name, name) then [c] else []
  }

  lemma ApplyDistinct(ts: seq<Content>, l: Line)
    requires NamesDistinct(ts)
    ensures NamesDistinct(Apply(ts, l))
  {
  }

  lemma {:induction false} RunDistinct(ts: seq<Content>, lines: seq<Line>)
    requires NamesDistinct(ts)
    ensures NamesDistinct(Run(ts, lines))
  {
    if lines != [] {
      RunDistinct(ts, lines[..|lines| - 1]);
      ApplyDistinct(Run(ts, lines[..|lines| - 1]), lines[|lines| - 1]);
    }
  }

  /** A line changes the table it names, by what that table was, and no other. */
  lemma ApplyLookup(ts: seq<Content>, l: Line, name: string)
    requires NamesDistinct(ts)
    ensures Lookup(Apply(ts, l), name) ==
      if EqIgnoreCase(l.name, name) then
        Some(Receive(if Lookup(ts, name).Some? then Lookup(ts, name).value else Fresh(l.name), l))
      else Lookup(ts, name)
  {
    var (all, i) := WithTable(ts, l.name);
    var r := Apply(ts, l);
    ApplyDistinct(ts, l);
    if EqIgnoreCase(l.name, name) {
      SameFind(ts, l.name, name);
      FoundAnywhere(r, name, i);
    } else {
      match Find(ts, name)
      case Some(j) =>
        assert j != i;
        FoundAnywhere(r, name, j);
      case None =>
        assert forall j :: 0 <= j < |r| ==> !EqIgnoreCase(r[j].name, name);
    }
  }

  lemma SameFind(ts: seq<Content>, a: string, b: string)
    requires EqIgnoreCase(a, b)
    ensures Find(ts, a) == Find(ts, b)
  {
  }

  lemma CompletedLookup(ts: seq<Content>, l: Line)
    requires NamesDistinct(ts)
    ensures var t := if Lookup(ts, l.name).Some? then Lookup(ts, l.name).value else Fresh(l.name);
      && CompletedBy(ts, l) == (if l.Completes() then [Completion(t.name, Receive(t, l).rows)] else [])
      && EqIgnoreCase(t.name, l.name)
  {
  }

  lemma LookupSame(ts: seq<Content>, a: string, b: string)
    requires EqIgnoreCase(a, b)
    ensures Lookup(ts, a) == Lookup(ts, b)
  {
  }

  lemma {:induction false} AboutAppend(a: seq<Completion>, b: seq<Completion>, name: string)
    requires |b| <= 1
    ensures About(a + b, name) == About(a, name) + About(b, name)
  {
    if b == [] {
      assert a + b == a;
    } else {
      assert (a + b)[..|a|] == a && b[..0] == [];
    }
  }

  /** After any stream of lines a table holds what the lines that name it, ignoring case, would
      have made of it alone, and the completions of the table are those of these lines. */
  lemma {:induction false} OnlyOwnLinesMatter(ts: seq<Content>, lines: seq<Line>, name: string)
    requires NamesDistinct(ts)
    ensures Lookup(Run(ts, lines), name) == Lookup(Run(ts, Naming(lines, name)), name)
    ensures About(Completions(ts, lines), name) == Completions(ts, Naming(lines, name))
  {
    hide Apply, CompletedBy, Lookup, NamesDistinct, Find, EqIgnoreCase, WithTable;
    if lines != [] {
      var before, l := lines[..|lines| - 1], lines[|lines| - 1];
      var own := Naming(before, name);
      OnlyOwnLinesMatter(ts, before, name);
      RunDistinct(ts, before);
      RunDistinct(ts, own);
      ApplyLookup(Run(ts, before), l, name);
      CompletedLookup(Run(ts, before), l);
      AboutAppend(Completions(ts, before), CompletedBy(Run(ts, before), l), name);
      if EqIgnoreCase(l.name, name) {
        assert Naming(lines, name)[..|own|] == own;
        ApplyLookup(Run(ts, own), l, name);
        CompletedLookup(Run(ts, own), l);
        LookupSame(Run(ts, before), l.name, name);
        LookupSame(Run(ts, own), l.name, name);
        OneAbout(CompletedBy(Run(ts, before), l), l.name, name);
      } else {
        NoneAbout(CompletedBy(Run(ts, before), l), l.name, name);
        assert own + [] == own;
        assert About(Completions(ts, before), name) + [] == About(Completions(ts, before), name);
      }
    }
  }

  lemma OneAbout(c: seq<Completion>, a: string, name: string)
    requires |c| <= 1 && EqIgnoreCase(a, name) && (c != [] ==> EqIgnoreCase(c[0].name, a))
    ensures About(c, name) == c
  {
  }

  lemma NoneAbout(c: seq<Completion>, a: string, name: string)
    requires |c| <= 1 && !EqIgnoreCase(a, name) && (c != [] ==> EqIgnoreCase(c[0].name, a))
    ensures About(c, name) == []
  {
  }

  ghost predicate CursorsInside(ts: seq<Content>) {
    forall i :: 0 <= i < |ts| ==> ts[i].CursorInside()
  }

  /** No stream of lines leaves a cursor behind the rows of its table. */
  lemma {:induction false} RunKeepsCursors(ts: seq<Content>, lines: seq<Line>)
    requires CursorsInside(ts)
    ensures CursorsInside(Run(ts, lines))
  {
    if lines != [] {
      hide Find, Split, Widened;
      RunKeepsCursors(ts, lines[..|lines| - 1]);
    }
  }

  // ----- the blocks of one table

  /** The lines of one table since it was last complete, or the response line alone. */
  function Block(lines: seq<Line>): (r: seq<Line>)
    requires lines != []
  {
    var n := |lines|;
    if lines[n - 1].kind == Response || n == 1 || lines[n - 2].Completes() then [lines[n - 1]]
    else Block(lines[..n - 1]) + [lines[n - 1]]
  }

  function Rows(lines: seq<Line>): (r: seq<seq<string>>)
    ensures |r| == |lines| && forall i :: 0 <= i < |r| ==> r[i] == Split(lines[i].row, SEPARATOR)
  {
    seq(|lines|, i requires 0 <= i < |lines| => Split(lines[i].row, SEPARATOR))
  }

  /** The rows of each block, in the order in which the blocks were completed. */
  function Blocks(lines: seq<Line>): seq<seq<seq<string>>> {
    if lines == [] then []
    else Blocks(lines[..|lines| - 1]) + if lines[|lines| - 1].Completes() then [Rows(Block(lines))] else []
  }

  function RowsOf(completions: seq<Completion>): (r: seq<seq<seq<string>>>)
    ensures |r| == |completions|
  {
    seq(|completions|, i requires 0 <= i < |completions| => completions[i].rows)
  }

  lemma ReceiveBlock(t: Content, lines: seq<Line>)
    requires lines != []
    requires if |lines| == 1 then t.complete
      else t.complete == lines[|lines| - 2].Completes() && t.rows == Rows(Block(lines[..|lines| - 1]))
    ensures var r := Receive(t, lines[|lines| - 1]);
      r.complete == lines[|lines| - 1].Completes() && r.rows == Rows(Block(lines))
  {
    hide Split, Widened, Rows;
    var l := lines[|lines| - 1];
    RowsNext([], l);
    if !(l.kind == Response || |lines| == 1 || lines[|lines| - 2].Completes()) {
      RowsNext(Block(lines[..|lines| - 1]), l);
    }
  }

  lemma RowsNext(b: seq<Line>, l: Line)
    ensures Rows(b + [l]) == Rows(b) + [Split(l.row, SEPARATOR)]
    ensures b == [] ==> Rows([l]) == [Split(l.row, SEPARATOR)]
  {
    hide Split;
  }

  /** When all lines name one table, which was complete or absent before: the table holds the
      rows of the current block, and each completion comes once, with exactly the rows of
      its block. */
  lemma {:induction false} CompletionsAreBlocks(ts: seq<Content>, lines: seq<Line>, name: string)
    requires NamesDistinct(ts) && (Lookup(ts, name).Some? ==> Lookup(ts, name).value.complete)
    requires forall i :: 0 <= i < |lines| ==> EqIgnoreCase(lines[i].name, name)
    ensures lines != [] ==>
      && Lookup(Run(ts, lines), name).Some?
      && Lookup(Run(ts, lines), name).value.rows == Rows(Block(lines))
      && Lookup(Run(ts, lines), name).value.complete == lines[|lines| - 1].Completes()
    ensures RowsOf(Completions(ts, lines)) == Blocks(lines)
  {
    hide Apply, CompletedBy, Lookup, NamesDistinct, Find, EqIgnoreCase, WithTable, Receive, Rows, Block;
    if lines != [] {
      var before, l := lines[..|lines| - 1], lines[|lines| - 1];
      CompletionsAreBlocks(ts, before, name);
      RunDistinct(ts, before);
      var now := Run(ts, before);
      ApplyLookup(now, l, name);
      CompletedLookup(now, l);
      LookupSame(now, l.name, name);
      ReceiveBlock(if Lookup(now, name).Some? then Lookup(now, name).value else Fresh(l.name), lines);
      RowsOfAppend(Completions(ts, before), CompletedBy(now, l));
    }
  }

  /** In any interleaved stream of lines: a table that was complete or absent before holds the
      rows of its current block, and its completions are its blocks, once each and in order,
      whatever other tables the lines name. */
  lemma OwnBlocks(ts: seq<Content>, lines: seq<Line>, name: string)
    requires NamesDistinct(ts) && (Lookup(ts, name).Some? ==> Lookup(ts, name).value.complete)
    ensures var own, t := Naming(lines, name), Lookup(Run(ts, lines), name);
      && RowsOf(About(Completions(ts, lines), name)) == Blocks(own)
      && (own != [] ==>
           t.Some? && t.value.rows == Rows(Block(own)) && t.value.complete == own[|own| - 1].Completes())
      && (own == [] ==> t == Lookup(ts, name))
  {
    hide Completions, Blocks, Rows, Block, Lookup, NamesDistinct, EqIgnoreCase, About;
    OnlyOwnLinesMatter(ts, lines, name);
    CompletionsAreBlocks(ts, Naming(lines, name), name);
  }

  lemma RowsOfAppend(a: seq<Completion>, b: seq<Completion>)
    ensures RowsOf(a + b) == RowsOf(a) + RowsOf(b)
  {
  }
}
