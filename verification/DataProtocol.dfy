/** The receiving side of the data protocol: a buffer that grows as needed, from which
    complete frames are taken and handed on as lines. */
module DataProtocol {
  import opened Wrappers
  import opened CStrings
  import opened Latin1
  import opened Tables
  import opened TableLists
  import Requests
  import opened Channel
  import Framing
  import Lines
  import TableUpdates

  /** The lines that payloads are read as. */
  function LinesOf(payloads: seq<seq<Byte>>): seq<Lines.Line> {
    if payloads == [] then []
    else
      var l := Lines.Parse(Lines.CString(payloads[|payloads| - 1]));
      LinesOf(payloads[..|payloads| - 1]) + if l.Some? then [l.value] else []
  }

  /** What a payload means for the requests waiting: at most the completion of a table. */
  function ReplyTo(payload: seq<Byte>): seq<Requests.Action> {
    var line := Lines.CString(payload);
    var l := Lines.Parse(line);
    if l.Some? && l.value.Completes() then [Requests.Completed(l.value.name, line)] else []
  }

  /** A last line or a response tells its table's name, as read, and the line, as it came; other
      lines tell nothing. */
  lemma ReplyIs(n: seq<Byte>, c: Byte, r: seq<Byte>, behind: seq<Byte>)
    requires '|' !in n && c != '|' && NUL !in n + [c] + ['|'] + r
    ensures var line := n + [c] + ['|'] + r;
      ReplyTo(line + [NUL] + behind) ==
        if n == [] && c as int < 128 then []
        else if c == '0' then [Requests.Completed(ToUtf8(n), line)]
        else if c == '1' then []
        else [Requests.Completed(ToUtf8(n + [c]), line)]
  {
    hide Lines.Parse, Lines.CString, ToUtf8;
    Lines.TextSeen(n + [c] + ['|'] + r, behind);
    Lines.LineRead(n, c, r);
  }

  function Replies(payloads: seq<seq<Byte>>): seq<Requests.Action> {
    if payloads == [] then []
    else Replies(payloads[..|payloads| - 1]) + ReplyTo(payloads[|payloads| - 1])
  }

  /** The tables and completions that payloads make of the tables ts. */
  ghost predicate Account(
    ts: seq<Content>, payloads: seq<seq<Byte>>, now: seq<Content>, completions: seq<Lines.Completion>)
  {
    now == Lines.Run(ts, LinesOf(payloads)) && completions == Lines.Completions(ts, LinesOf(payloads))
  }

  lemma AccountNext(
    ts: seq<Content>, payloads: seq<seq<Byte>>, now: seq<Content>, completions: seq<Lines.Completion>,
    payload: seq<Byte>)
    requires Account(ts, payloads, now, completions)
    ensures match Lines.Parse(Lines.CString(payload))
      case None => Account(ts, payloads + [payload], now, completions)
      case Some(l) =>
        Account(ts, payloads + [payload], Lines.Apply(now, l), completions + Lines.CompletedBy(now, l))
  {
    hide Lines.Parse, Lines.CString, Lines.Apply, Lines.CompletedBy;
    assert (payloads + [payload])[..|payloads|] == payloads;
    assert LinesOf(payloads) + [] == LinesOf(payloads);
    match Lines.Parse(Lines.CString(payload))
    case None =>
    case Some(l) => assert (LinesOf(payloads) + [l])[..|LinesOf(payloads)|] == LinesOf(payloads);
  }

  lemma CompletedSome(ts: seq<Content>, l: Lines.Line)
    ensures Lines.CompletedBy(ts, l) != [] <==> l.Completes()
  {
  }

  lemma RepliesOne(payload: seq<Byte>)
    ensures Replies([payload]) == ReplyTo(payload)
  {
  }

  /** memchr, on n bytes from position p on; the place found is counted from p. */
  method MemChr(a: array<Byte>, p: nat, c: Byte, n: nat) returns (r: Option<nat>)
    requires p + n <= a.Length
    ensures var k := FirstAt(a[p..p + n], c); k <= n && r == if k < n then Some(k) else None
  {
    ghost var s := a[p..p + n];
    for i := 0 to n
      invariant forall j :: 0 <= j < i ==> s[j] != c
    {
      if a[p + i] == c {
        assert s[i] == c;
        return Some(i);
      }
    }
    r := None;
  }

  /** Looks for a frame in n bytes from bufstart on: its STX, and its ETX if bytes follow the
      STX (lines 83-89). Both are counted from bufstart. */
  method Locate(a: array<Byte>, bufstart: nat, n: nat) returns (start: Option<nat>, end: Option<nat>)
    requires bufstart + n <= a.Length
    ensures (start, end) == Framing.Places(a[bufstart..bufstart + n])
  {
    hide FirstAt;
    ghost var b := a[bufstart..bufstart + n];
    end := None;
    start := MemChr(a, bufstart, Framing.STX, n);
    if start.Some? {
      var p := start.value + 1;
      assert a[bufstart + p..bufstart + p + (n - p)] == b[p..];
      if n - p > 0 {
        var q := MemChr(a, bufstart + p, Framing.ETX, n - p);
        end := if q.Some? then Some(p + q.value) else None;
      } else {
        Framing.FirstAtBound(b[p..], Framing.ETX);
      }
    }
  }

  /** memmove of n bytes from position src to the start. */
  method MoveToFront(a: array<Byte>, src: nat, n: nat)
    requires src + n <= a.Length
    modifies a
    ensures a[..n] == old(a[src..src + n])
  {
    for i := 0 to n
      invariant forall j :: 0 <= j < i ==> a[j] == old(a[src + j])
      invariant forall j :: i <= j < a.Length ==> a[j] == old(a[j])
    {
      a[i] := a[src + i];
    }
  }

  /** Copies bytes into an array from position at on. */
  method CopyInto(a: array<Byte>, at: nat, s: seq<Byte>)
    requires at + |s| <= a.Length
    modifies a
    ensures a[..at] == old(a[..at]) && a[at..at + |s|] == s
  {
    for i := 0 to |s|
      invariant a[..at] == old(a[..at])
      invariant forall j :: 0 <= j < i ==> a[at + j] == s[j]
    {
      a[at + i] := s[i];
    }
  }

  class Receiver {
    var buffer: array<Byte>
    var bufSize: nat
    var bufCapacity: nat
    const tables: TableList
    const channel: RequestChannel
    var completions: seq<Lines.Completion>   // what the automation was told

    ghost const initial: seq<Content>        // the tables at first
    ghost var delivered: seq<seq<Byte>>      // the payloads handed on

    ghost predicate Buffered()
      reads this
    {
      bufSize <= bufCapacity == buffer.Length
    }

    /** The tables and what the automation was told are what the delivered lines make them. */
    ghost predicate Told()
      reads this`completions, this`delivered, tables, tables.tables, channel
    {
      && tables.Valid() && channel.Valid()
      && Account(initial, delivered, tables.View(), completions)
    }

    ghost predicate Valid()
      reads this, tables, tables.tables, channel
    {
      Buffered() && Told()
    }

    /** The bytes kept between reads. */
    ghost function Kept(): seq<Byte>
      requires Buffered()
      reads this, buffer
    {
      buffer[..bufSize]
    }

    constructor (tables: TableList, channel: RequestChannel)
      requires tables.Valid() && channel.Valid()
      ensures Valid() && Kept() == [] && delivered == [] && completions == []
      ensures this.tables == tables && this.channel == channel && initial == tables.View()
    {
      buffer := new Byte[0];
      bufSize, bufCapacity := 0, 0;
      this.tables, this.channel := tables, channel;
      completions, delivered := [], [];
      initial := tables.View();
    }

    /** The growth of the buffer (lines 94-100 of oris_protocol_recv). */
    method Grow(needed: nat)
      modifies this`bufCapacity
      ensures bufCapacity >= needed
      ensures old(bufCapacity) >= needed ==> bufCapacity == old(bufCapacity)
      ensures old(bufCapacity) < needed ==> bufCapacity == 64 || bufCapacity / 2 < needed
    {
      while bufCapacity < needed
        invariant bufCapacity == old(bufCapacity) || bufCapacity == 64 || bufCapacity / 2 < needed
        invariant old(bufCapacity) >= needed ==> bufCapacity == old(bufCapacity)
        decreases if bufCapacity == 0 then 1 else 0, needed - bufCapacity
      {
        if bufCapacity == 0 {
          bufCapacity := 64;
        } else {
          bufCapacity := bufCapacity * 2;
        }
      }
    }

    /** oris_protocol_recv: appends what has come in to the buffer. */
    method Recv(input: seq<Byte>) returns (rlen: nat)
      requires Buffered()
      modifies this`buffer, this`bufSize, this`bufCapacity, buffer
      ensures Buffered() && rlen == |input|
      ensures Kept() == old(Kept()) + input
      ensures buffer == old(buffer) || fresh(buffer)
    {
      if |input| == 0 {
        return 0;
      }
      Grow(bufSize + |input|);
      if bufCapacity != buffer.Length {
        var p := new Byte[bufCapacity](i => NUL);
        CopyInto(p, 0, buffer[..bufSize]);
        assert p[..bufSize] == p[0..bufSize];
        buffer := p;
      }
      CopyInto(buffer, bufSize, input);
      rlen := |input|;
      bufSize := bufSize + rlen;
      assert buffer[..bufSize] == buffer[..old(bufSize)] + buffer[old(bufSize)..bufSize];
    }

    /** Finds the table a line names and adds its row; a completed table is told to the
        automation and to the requests waiting (lines 198-222). */
    method HandleLine(l: Lines.Line, line: seq<Byte>)
      requires tables.Valid() && channel.Valid() && NUL !in l.row
      modifies this`completions, tables, tables.tables, channel
      ensures tables.Valid() && channel.Valid()
      ensures tables.View() == Lines.Apply(old(tables.View()), l)
      ensures completions == old(completions) + Lines.CompletedBy(old(tables.View()), l)
      ensures channel.run == old(channel.run) + if l.Completes() then [Requests.Completed(l.name, line)] else []
      ensures forall k :: 0 <= k < |tables.tables| ==>
        tables.tables[k] in old(tables.tables) || fresh(tables.tables[k])
    {
      hide Lines.Apply, Lines.CompletedBy, TableList.Valid, RequestChannel.Valid;
      CompletedSome(tables.View(), l);
      var completed := TableUpdates.UpdateTable(tables, l);
      completions := completions + completed;
      if completed != [] {
        channel.TableCompleted(l.name, line);
      }
    }

    /** process_line, for the payload of a frame. */
    method ProcessLine(payload: seq<Byte>)
      requires Valid()
      modifies this`completions, this`delivered, tables, tables.tables, channel
      ensures Valid() && delivered == old(delivered) + [payload]
      ensures channel.run == old(channel.run) + Replies([payload])
      ensures forall k :: 0 <= k < |tables.tables| ==>
        tables.tables[k] in old(tables.tables) || fresh(tables.tables[k])
    {
      hide Account, Lines.Apply, Lines.CompletedBy, Lines.Parse, Replies, TableList.Valid, RequestChannel.Valid;
      var line := Lines.CString(payload);
      var l := TableUpdates.ParseLine(line);
      AccountNext(initial, delivered, tables.View(), completions, payload);
      RepliesOne(payload);
      delivered := delivered + [payload];
      if l.Some? {
        HandleLine(l.value, line);
      }
    }

    /** Ends the payload of a frame in the buffer and hands it on (lines 91-92). */
    method HandOn(p: nat, e: nat)
      requires Valid() && p <= e < buffer.Length
      modifies this`completions, this`delivered, buffer, tables, tables.tables, channel
      ensures Valid() && delivered == old(delivered) + [old(buffer[p..e])]
      ensures buffer[..] == old(buffer[..])[e := NUL]
      ensures channel.run == old(channel.run) + Replies([old(buffer[p..e])])
      ensures forall k :: 0 <= k < |tables.tables| ==>
        tables.tables[k] in old(tables.tables) || fresh(tables.tables[k])
    {
      hide Receiver.Told, Replies;
      var payload := buffer[p..e];
      buffer[e] := NUL;
      ProcessLine(payload);
    }

    /** One round of the loop of oris_protocol_data_read_cb (lines 83-101). */
    method NextFrame(bufstart: nat, ghost whole: Framing.Reading, ghost news: seq<seq<Byte>>)
      returns (rest: nat, more: bool, ghost news': seq<seq<Byte>>)
      requires Valid() && bufSize > 0 && Scanned(whole, news, buffer[..], bufstart, bufSize, true)
      modifies this`bufSize, this`completions, this`delivered, buffer, tables, tables.tables, channel
      ensures Valid() && Scanned(whole, news + news', buffer[..], rest, bufSize, more)
      ensures delivered == old(delivered) + news' && channel.run == old(channel.run) + Replies(news')
      ensures bufSize < old(bufSize) || (bufSize == old(bufSize) && !more)
      ensures forall k :: 0 <= k < |tables.tables| ==>
        tables.tables[k] in old(tables.tables) || fresh(tables.tables[k])
    {
      hide Scanned, Framing.Places, Receiver.Told, Replies;
      ghost var buf, n := buffer[..], bufSize;
      ScannedBounds(whole, news, buf, bufstart, n, true);
      rest, more, news' := bufstart, false, [];
      assert news + [] == news && delivered + [] == delivered;
      NoReplies();
      var start, end := Locate(buffer, bufstart, bufSize);
      assert buffer[bufstart..bufstart + bufSize] == buf[bufstart..bufstart + n];
      Framing.PlacesBounds(buf[bufstart..bufstart + n]);
      if start == None {
        StopWithoutStart(whole, news, buf, bufstart, n);
      } else if end == None {
        bufSize := bufSize - start.value - 1;
        if bufSize > 0 {
          rest := bufstart + start.value + 1;
          bufSize := bufSize + 1;
        }
        StopWithoutEnd(whole, news, buf, bufstart, n, start.value);
      } else {
        var p, e := bufstart + start.value + 1, bufstart + end.value;
        news' := [buffer[p..e]];
        GoOn(whole, news, buf, bufstart, n, start.value, end.value);
        HandOn(p, e);
        bufSize := bufSize - end.value - 1;
        rest := e + 1;
        more := true;
      }
    }

    /** The loop of oris_protocol_data_read_cb (lines 82-102): hands on the payloads of the
        complete frames and finds what is to be kept, from one byte before rest on. */
    method TakeFrames() returns (rest: nat, ghost news: seq<seq<Byte>>)
      requires Valid()
      modifies this`bufSize, this`completions, this`delivered, buffer, tables, tables.tables, channel
      ensures Valid() && delivered == old(delivered) + news
      ensures channel.run == old(channel.run) + Replies(news)
      ensures Scanned(Framing.Consume(old(Kept()), true), news, buffer[..], rest, bufSize, false)
      ensures forall k :: 0 <= k < |tables.tables| ==>
        tables.tables[k] in old(tables.tables) || fresh(tables.tables[k])
    {
      hide Scanned, Framing.Consume, Receiver.Told, Replies;
      var more := true;
      ghost var whole, step: seq<seq<Byte>> := Framing.Consume(Kept(), true), [];
      rest, news := 0, [];
      ScannedAtFirst(buffer[..], bufSize);
      assert buffer[..][..bufSize] == Kept() && delivered + [] == delivered;
      NoReplies();
      while bufSize > 0 && more
        invariant Valid() && delivered == old(delivered) + news
        invariant forall k :: 0 <= k < |tables.tables| ==>
          tables.tables[k] in old(tables.tables) || fresh(tables.tables[k])
        invariant channel.run == old(channel.run) + Replies(news)
        invariant Scanned(whole, news, buffer[..], rest, bufSize, more)
        decreases bufSize, if more then 1 else 0
      {
        rest, more, step := NextFrame(rest, whole, news);
        RepliesConcat(news, step);
        news := news + step;
      }
      ScannedAtLast(whole, news, buffer[..], rest, bufSize, more);
    }

    /** oris_protocol_data_read_cb. The result tells whether the move at the end stays inside
        the buffer; where it does not, the model ends. */
    method ReadCb(input: seq<Byte>) returns (inBounds: bool, ghost news: seq<seq<Byte>>)
      requires Valid()
      modifies this, buffer, tables, tables.tables, channel
      ensures Valid() && (buffer == old(buffer) || fresh(buffer))
      ensures forall k :: 0 <= k < |tables.tables| ==>
        tables.tables[k] in old(tables.tables) || fresh(tables.tables[k])
      ensures var r := ReadOnce(old(Kept()), input);
        && news == r.lines && inBounds == r.rest.Some? && (inBounds ==> Kept() == r.rest.value)
      ensures delivered == old(delivered) + news && channel.run == old(channel.run) + Replies(news)
    {
      hide Framing.Consume, Scanned, Receiver.Told, Replies;
      NoReplies();
      var rlen := Recv(input);
      if rlen == 0 {
        assert delivered + [] == delivered && Kept() == old(Kept()) + [] == old(Kept());
        return true, [];
      }
      var rest;
      rest, news := TakeFrames();
      ScannedResult(Framing.Consume(old(Kept()) + input, true), news, buffer[..], rest, bufSize);
      inBounds := true;
      if bufSize > 0 {
        if rest == 0 {
          return false, news;
        }
        assert buffer[..][rest - 1..rest - 1 + bufSize] == buffer[rest - 1..rest - 1 + bufSize];
        MoveToFront(buffer, rest - 1, bufSize);
      }
    }

    /** The reads that the event loop hands on, one after the other. */
    method ReadAll(input: seq<seq<Byte>>) returns (inBounds: bool, ghost news: seq<seq<Byte>>)
      requires Valid()
      modifies this, buffer, tables, tables.tables, channel
      ensures Valid()
      ensures var r := Framing.Receive(old(Kept()), input);
        && news == r.lines && inBounds == r.rest.Some? && (inBounds ==> Kept() == r.rest.value)
      ensures delivered == old(delivered) + news && channel.run == old(channel.run) + Replies(news)
    {
      hide Reached, Receiver.Told, Replies, ReadOnce, Framing.Receive;
      ghost var step: seq<seq<Byte>>, whole := [], Framing.Receive(Kept(), input);
      inBounds, news := true, [];
      var i := 0;
      NoReplies();
      ReachedFirst(Kept(), input);
      assert delivered + [] == delivered && input[0..] == input;
      while i < |input| && inBounds
        invariant 0 <= i <= |input| && Valid() && (buffer == old(buffer) || fresh(buffer))
        invariant forall k :: 0 <= k < |tables.tables| ==>
          tables.tables[k] in old(tables.tables) || fresh(tables.tables[k])
        invariant delivered == old(delivered) + news && channel.run == old(channel.run) + Replies(news)
        invariant Reached(whole, news, if inBounds then Some(Kept()) else None, input[i..])
      {
        ReachedNext(whole, news, Kept(), input[i..]);
        inBounds, step := ReadCb(input[i]);
        RepliesConcat(news, step);
        news := news + step;
        assert input[i..][1..] == input[i + 1..];
        i := i + 1;
      }
      ReachedLast(whole, news, if inBounds then Some(Kept()) else None, input[i..]);
    }

    /** A stream of whole frames, from an empty buffer on, read in any pieces: every payload is
        handed on once and in order, and the buffer is left empty, if and only if no read ends
        directly after an STX that opens a frame. The tables, the completions told and the
        replies noticed are then those of the lines sent. */
    method ReadFrames(input: seq<seq<Byte>>, ghost payloads: seq<seq<Byte>>) returns (inBounds: bool)
      requires Valid() && Kept() == []
      requires Framing.GoodPayloads(payloads) && Framing.Concat(input) == Framing.Stream(payloads)
      modifies this, buffer, tables, tables.tables, channel
      ensures Valid()
      ensures (inBounds && Kept() == [] && delivered == old(delivered) + payloads)
        <==> !Framing.CutAfterOpening(payloads, 0, input)
      ensures !Framing.CutAfterOpening(payloads, 0, input) ==>
        && tables.View() == Lines.Run(initial, LinesOf(old(delivered) + payloads))
        && completions == Lines.Completions(initial, LinesOf(old(delivered) + payloads))
        && channel.run == old(channel.run) + Replies(payloads)
    {
      hide Framing.Receive, Framing.Stream, Framing.Concat, Framing.CutAfterOpening, Framing.GoodPayloads;
      hide Replies, LinesOf, Lines.Run, Lines.Completions;
      ghost var news;
      Framing.WholeStream(payloads, input);
      inBounds, news := ReadAll(input);
      assert (old(delivered) + news)[|old(delivered)|..] == news;
      assert (old(delivered) + payloads)[|old(delivered)|..] == payloads;
    }
  }

  /** What one read yields. */
  function ReadOnce(pending: string, input: string): (r: Framing.Reading) {
    if input == [] then Framing.Reading([], Some(pending)) else Framing.Consume(pending + input, true)
  }

  /** Reading has handed on news and kept pending, with the reads of input to come; nothing is
      kept when the buffer was overrun. */
  ghost predicate Reached(whole: Framing.Reading, news: seq<string>, pending: Option<string>, input: seq<string>) {
    whole == match pending
      case None => Framing.Reading(news, None)
      case Some(p) => Framing.Preceded(news, Framing.Receive(p, input))
  }

  lemma ReachedFirst(pending: string, input: seq<string>)
    ensures Reached(Framing.Receive(pending, input), [], Some(pending), input)
  {
    hide Framing.Receive;
    var r := Framing.Receive(pending, input);
    assert [] + r.lines == r.lines;
  }

  lemma ReachedNext(whole: Framing.Reading, news: seq<string>, pending: string, input: seq<string>)
    requires Reached(whole, news, Some(pending), input) && input != []
    ensures var now := ReadOnce(pending, input[0]); Reached(whole, news + now.lines, now.rest, input[1..])
  {
    hide Framing.Consume;
    var now := ReadOnce(pending, input[0]);
    if now.rest.Some? {
      var later := Framing.Receive(now.rest.value, input[1..]);
      assert news + (now.lines + later.lines) == news + now.lines + later.lines;
      assert [] + later.lines == later.lines;
    }
  }

  lemma ReachedLast(whole: Framing.Reading, news: seq<string>, pending: Option<string>, input: seq<string>)
    requires Reached(whole, news, pending, input) && (pending.Some? ==> input == [])
    ensures whole == Framing.Reading(news, pending)
  {
    assert news + [] == news;
  }

  lemma NoReplies()
    ensures Replies([]) == []
  {
  }

  // ----- what the loop has found

  /** The reading of a buffer has handed on news; rest tells where the bytes not yet looked
      at start or, when the loop is over, the byte behind the first one to be kept. */
  ghost predicate Scanned(
    whole: Framing.Reading, news: seq<string>, buf: string, rest: nat, size: nat, more: bool)
  {
    && (rest > 0 ==> rest - 1 + size <= |buf|)
    && (if more then
          && rest + size <= |buf| && (rest > 0 ==> buf[rest - 1] == NUL)
          && whole == Framing.Preceded(news, Framing.Consume(buf[rest..rest + size], rest == 0))
        else
          whole == Framing.Reading(news,
            if size == 0 then Some("") else if rest == 0 then None else Some(buf[rest - 1..rest - 1 + size])))
  }

  lemma ScannedBounds(whole: Framing.Reading, news: seq<string>, buf: string, rest: nat, size: nat, more: bool)
    requires Scanned(whole, news, buf, rest, size, more)
    ensures (rest > 0 ==> rest - 1 + size <= |buf|) && (more ==> rest + size <= |buf|)
  {
  }

  lemma ScannedAtFirst(buf: string, size: nat)
    requires size <= |buf|
    ensures Scanned(Framing.Consume(buf[..size], true), [], buf, 0, size, true)
  {
  }

  lemma ScannedResult(whole: Framing.Reading, news: seq<string>, buf: string, rest: nat, size: nat)
    requires Scanned(whole, news, buf, rest, size, false)
    ensures (rest > 0 ==> rest - 1 + size <= |buf|) && whole.lines == news
    ensures whole.rest == if size == 0 then Some("")
      else if rest == 0 then None else Some(buf[rest - 1..rest - 1 + size])
  {
  }

  lemma ScannedAtLast(whole: Framing.Reading, news: seq<string>, buf: string, rest: nat, size: nat, more: bool)
    requires Scanned(whole, news, buf, rest, size, more) && (size == 0 || !more)
    ensures Scanned(whole, news, buf, rest, size, false)
  {
  }

  lemma StopWithoutStart(whole: Framing.Reading, news: seq<string>, buf: string, rest: nat, size: nat)
    requires Scanned(whole, news, buf, rest, size, true)
    requires size > 0 && Framing.Places(buf[rest..rest + size]) == (None, None)
    ensures Scanned(whole, news, buf, rest, size, false)
  {
    hide Framing.Places;
    var b := buf[rest..rest + size];
    assert news + [] == news;
    if rest > 0 {
      assert buf[rest - 1..rest - 1 + size] == [NUL] + b[..|b| - 1];
    }
  }

  lemma StopWithoutEnd(whole: Framing.Reading, news: seq<string>, buf: string, rest: nat, size: nat, i: nat)
    requires Scanned(whole, news, buf, rest, size, true)
    requires size > 0 && Framing.Places(buf[rest..rest + size]) == (Some(i), None)
    ensures i < size
    ensures Scanned(whole, news, buf,
      if i + 1 == size then rest else rest + i + 1, if i + 1 == size then 0 else size - i, false)
  {
    hide Framing.Places;
    Framing.PlacesBounds(buf[rest..rest + size]);
    assert news + [] == news;
    assert buf[rest..rest + size][i..] == buf[rest + i..rest + size];
  }

  lemma SliceOfSlice(s: string, a: nat, b: nat, i: nat, j: nat)
    requires a <= b <= |s| && i <= j <= b - a
    ensures s[a..b][i..j] == s[a + i..a + j]
  {
    assert forall k :: 0 <= k < j - i ==> s[a..b][i..j][k] == s[a + i..a + j][k];
  }

  lemma GoOn(whole: Framing.Reading, news: seq<string>, buf: string, rest: nat, size: nat, i: nat, j: nat)
    requires Scanned(whole, news, buf, rest, size, true)
    requires size > 0 && Framing.Places(buf[rest..rest + size]) == (Some(i), Some(j))
    ensures i < j < size
    ensures Scanned(
      whole, news + [buf[rest + i + 1..rest + j]], buf[rest + j := NUL], rest + j + 1, size - j - 1, true)
  {
    hide Framing.Consume, Framing.Places;
    Framing.PlacesBounds(buf[rest..rest + size]);
    var b, buf' := buf[rest..rest + size], buf[rest + j := NUL];
    var line, later := b[i + 1..j], Framing.Consume(b[j + 1..], false);
    Framing.ConsumeFirst(b, rest == 0, i, j);
    SliceOfSlice(buf, rest, rest + size, i + 1, j);
    assert b[j + 1..] == buf'[rest + j + 1..rest + j + 1 + (size - j - 1)];
    assert news + ([line] + later.lines) == news + [line] + later.lines;
  }

  lemma {:induction false} RepliesConcat(a: seq<seq<Byte>>, b: seq<seq<Byte>>)
    ensures Replies(a + b) == Replies(a) + Replies(b)
  {
    hide ReplyTo;
    if b == [] {
      assert a + b == a;
    } else {
      RepliesConcat(a, b[..|b| - 1]);
      assert (a + b)[..|a + b| - 1] == a + b[..|b| - 1];
    }
  }
}
