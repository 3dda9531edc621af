/** The frames of the data protocol: lines between STX and ETX, received in arbitrary
    pieces. */
module Framing {
  import opened Wrappers
  import opened CStrings

  const STX: char := 2 as char
  const ETX: char := 3 as char

  /** What reading yields: the lines handed on, and the bytes kept in the buffer. No buffer
      means that the last move would have copied from in front of it. */
  datatype Reading = Reading(lines: seq<string>, rest: Option<string>)

  /** Lines, and then what comes later. */
  function Preceded(lines: seq<string>, later: Reading): Reading {
    later.(lines := lines + later.lines)
  }

  /** The place of the first STX in b, and that of the first ETX behind it. */
  function Places(b: string): (r: (Option<nat>, Option<nat>))
    ensures r.0.None? ==> r.1.None?
    ensures r.0.Some? ==> r.0.value < |b| && b[r.0.value] == STX
    ensures r.0.Some? && r.1.Some? ==> r.0.value < r.1.value < |b| && b[r.1.value] == ETX
  {
    var p := FirstAt(b, STX);
    if p == |b| then (None, None)
    else
      var q := p + 1 + FirstAt(b[p + 1..], ETX);
      (Some(p), if q == |b| then None else Some(q))
  }

  /** One run of the loop of oris_protocol_data_read_cb over the bytes b; atStart says that
      b is still at the start of the buffer. */
  function Consume(b: string, atStart: bool): (r: Reading)
    decreases |b|
  {
    if b == "" then Reading([], Some(""))
    else
      match Places(b)
      case (None, _) =>
        // the move copies from one byte early: behind a frame this is its NUL
        Reading([], if atStart then None else Some([NUL] + b[..|b| - 1]))
      case (Some(p), None) => Reading([], Some(if p + 1 == |b| then "" else b[p..]))
      case (Some(p), Some(q)) => Preceded([b[p + 1..q]], Consume(b[q + 1..], false))
  }

  /** Any number of reads, with pending in the buffer at first. An empty read is ignored. */
  function Receive(pending: string, pieces: seq<string>): (r: Reading)
    decreases pieces
  {
    if pieces == [] then Reading([], Some(pending))
    else if pieces[0] == "" then Receive(pending, pieces[1..])
    else
      var now := Consume(pending + pieces[0], true);
      if now.rest == None then now
      else
        var later := Receive(now.rest.value, pieces[1..]);
        Preceded(now.lines, later)
  }

  lemma PlacesBounds(b: string)
    ensures var r := Places(b);
      && (r.0.None? ==> r.1.None?) && (r.0.Some? ==> r.0.value < |b|)
      && (r.0.Some? && r.1.Some? ==> r.0.value < r.1.value < |b|)
  {
  }

  lemma ConsumeFirst(b: string, atStart: bool, p: nat, q: nat)
    requires p < q < |b| && Places(b) == (Some(p), Some(q))
    ensures Consume(b, atStart) == Preceded([b[p + 1..q]], Consume(b[q + 1..], false))
  {
    hide Places, Preceded;
  }

  lemma FirstAtBound(s: string, c: char)
    ensures FirstAt(s, c) <= |s|
  {
  }

  function Frame(payload: string): string {
    [STX] + payload + [ETX]
  }

  /** The stream of frames a server sends. */
  function Stream(payloads: seq<string>): string {
    if payloads == [] then "" else Frame(payloads[0]) + Stream(payloads[1..])
  }

  ghost predicate GoodPayloads(payloads: seq<string>) {
    forall i :: 0 <= i < |payloads| ==> ETX !in payloads[i]
  }

  function Concat(pieces: seq<string>): string {
    if pieces == [] then "" else pieces[0] + Concat(pieces[1..])
  }

  /** How many frames end within the first n bytes of the stream. */
  function Complete(payloads: seq<string>, n: nat): (k: nat)
    ensures k <= |payloads|
  {
    if payloads == [] || n < |payloads[0]| + 2 then 0
    else 1 + Complete(payloads[1..], n - |payloads[0]| - 2)
  }

  /** How many of the first n bytes belong to the frame that is not complete. */
  function Begun(payloads: seq<string>, n: nat): (m: nat)
    ensures m <= n
  {
    if payloads == [] || n < |payloads[0]| + 2 then n
    else Begun(payloads[1..], n - |payloads[0]| - 2)
  }

  /** A cut behind n bytes of the stream falls directly after an STX that opens a frame. */
  predicate AfterOpening(payloads: seq<string>, n: nat) {
    Begun(payloads, n) == 1 && Complete(payloads, n) < |payloads|
  }

  /** The last m bytes of b. */
  function Last(b: string, m: nat): (r: string)
    requires m <= |b|
    ensures |r| == m
  {
    b[|b| - m..]
  }

  /** What has been received of a stream once the bytes b have come in. */
  function Ideal(payloads: seq<string>, b: string): Reading {
    Reading(payloads[..Complete(payloads, |b|)], Some(Last(b, Begun(payloads, |b|))))
  }

  lemma FirstAtNone(s: string, c: char)
    requires c !in s
    ensures FirstAt(s, c) == |s|
  {
  }

  lemma PlacesOfFrame(payload: string, b: string)
    requires ETX !in payload
    ensures Places(Frame(payload) + b) == (Some(0), Some(1 + |payload|))
  {
    hide FirstAt;
    var s := Frame(payload) + b;
    FirstAtIs("", STX, payload + [ETX] + b);
    assert s == "" + [STX] + (payload + [ETX] + b);
    assert s[0 + 1..] == payload + [ETX] + b;
    FirstAtIs(payload, ETX, b);
  }

  /** The loop over bytes that start with a whole frame. */
  lemma ConsumeFrame(payload: string, b: string, atStart: bool)
    requires ETX !in payload
    ensures Consume(Frame(payload) + b, atStart)
      == Preceded([payload], Consume(b, false))
  {
    hide Places, Consume, Preceded;
    var s, q := Frame(payload) + b, 1 + |payload|;
    PlacesOfFrame(payload, b);
    ConsumeFirst(s, atStart, 0, q);
    assert s[1..q] == payload && s[q + 1..] == b;
  }

  /** The loop over the beginning of a frame. */
  lemma ConsumePart(b: string, atStart: bool)
    requires b != "" && b[0] == STX && ETX !in b
    ensures Consume(b, atStart) == Reading([], Some(if |b| == 1 then "" else b))
  {
  }

  /** The loop over the first bytes of a stream. */
  lemma {:induction false} ConsumeStream(payloads: seq<string>, b: string, atStart: bool)
    requires GoodPayloads(payloads) && b <= Stream(payloads)
    ensures Consume(b, atStart)
      == if AfterOpening(payloads, |b|) then Ideal(payloads, b).(rest := Some("")) else Ideal(payloads, b)
    decreases payloads
  {
    hide Consume;
    if b == "" {
      ConsumeNothing(atStart);
    } else if |b| < |payloads[0]| + 2 {
      PartOfFrame(payloads[0], Stream(payloads[1..]), b);
      ConsumePart(b, atStart);
    } else {
      var rest := b[|payloads[0]| + 2..];
      WholeFrame(payloads[0], Stream(payloads[1..]), b);
      ConsumeFrame(payloads[0], rest, atStart);
      ConsumeStream(payloads[1..], rest, false);
      IdealNext(payloads, b);
    }
  }

  lemma ConsumeNothing(atStart: bool)
    ensures Consume("", atStart) == Reading([], Some(""))
  {
  }

  lemma PartOfFrame(payload: string, others: string, b: string)
    requires b != "" && |b| < |payload| + 2 && b <= Frame(payload) + others && ETX !in payload
    ensures b[0] == STX && ETX !in b
  {
  }

  lemma WholeFrame(payload: string, others: string, b: string)
    requires |b| >= |payload| + 2 && b <= Frame(payload) + others
    ensures b == Frame(payload) + b[|payload| + 2..] && b[|payload| + 2..] <= others
  {
  }

  lemma IdealNext(payloads: seq<string>, b: string)
    requires payloads != [] && |b| >= |payloads[0]| + 2
    ensures var next := Ideal(payloads[1..], b[|payloads[0]| + 2..]);
      Ideal(payloads, b) == Preceded([payloads[0]], next)
  {
  }

  // ----- streams in pieces

  /** When the first n bytes of the stream have come in and the pieces follow: does the cut
      here, between two pieces or behind the last fall directly after an opening STX? */
  predicate CutAfterOpening(payloads: seq<string>, n: nat, pieces: seq<string>)
    decreases pieces
  {
    || AfterOpening(payloads, n)
    || (pieces != [] && CutAfterOpening(payloads, n + |pieces[0]|, pieces[1..]))
  }

  lemma {:induction false} BegunFrame(payloads: seq<string>, b: string)
    requires b <= Stream(payloads)
    ensures var c, v := Complete(payloads, |b|), Last(b, Begun(payloads, |b|));
      && Complete(payloads[c..], |v|) == 0 && Begun(payloads[c..], |v|) == |v|
    decreases payloads
  {
    if payloads != [] && |b| >= |payloads[0]| + 2 {
      var rest := b[|payloads[0]| + 2..];
      WholeFrame(payloads[0], Stream(payloads[1..]), b);
      BegunFrame(payloads[1..], rest);
      var c := Complete(payloads[1..], |rest|);
      assert payloads[1..][c..] == payloads[1 + c..];
      assert Last(b, Begun(payloads, |b|)) == Last(rest, Begun(payloads[1..], |rest|));
    } else {
      assert b[|b| - |b|..] == b && payloads[0..] == payloads;
    }
  }

  /** More bytes continue the frame that n bytes have begun. */
  lemma {:induction false} ContinueCount(payloads: seq<string>, n: nat, d: nat)
    ensures var c, m := Complete(payloads, n), Begun(payloads, n);
      && Complete(payloads, n + d) == c + Complete(payloads[c..], m + d)
      && Begun(payloads, n + d) == Begun(payloads[c..], m + d)
    decreases payloads
  {
    hide Complete, Begun;
    if payloads != [] && n >= |payloads[0]| + 2 {
      var n' := n - |payloads[0]| - 2;
      ContinueCount(payloads[1..], n', d);
      CountNext(payloads, n);
      CountNext(payloads, n + d);
      var c := Complete(payloads[1..], n');
      assert payloads[1..][c..] == payloads[1 + c..];
    } else {
      CountNone(payloads, n);
      assert payloads[0..] == payloads;
    }
  }

  lemma CountNone(payloads: seq<string>, n: nat)
    requires payloads == [] || n < |payloads[0]| + 2
    ensures Complete(payloads, n) == 0 && Begun(payloads, n) == n
  {
  }

  lemma CountNext(payloads: seq<string>, n: nat)
    requires payloads != [] && n >= |payloads[0]| + 2
    ensures var n' := n - |payloads[0]| - 2;
      Complete(payloads, n) == 1 + Complete(payloads[1..], n') && Begun(payloads, n) == Begun(payloads[1..], n')
  {
  }

  lemma {:induction false} ContinueText(payloads: seq<string>, b: string, x: string)
    requires b + x <= Stream(payloads)
    ensures Last(b, Begun(payloads, |b|)) + x <= Stream(payloads[Complete(payloads, |b|)..])
    decreases payloads
  {
    if payloads != [] && |b| >= |payloads[0]| + 2 {
      var rest := b[|payloads[0]| + 2..];
      WholeFrame(payloads[0], Stream(payloads[1..]), b + x);
      assert (b + x)[|payloads[0]| + 2..] == rest + x;
      ContinueText(payloads[1..], rest, x);
      var c := Complete(payloads[1..], |rest|);
      assert payloads[1..][c..] == payloads[1 + c..];
      assert Last(b, Begun(payloads, |b|)) == Last(rest, Begun(payloads[1..], |rest|));
    } else {
      assert b[|b| - |b|..] == b && payloads[0..] == payloads;
    }
  }

  /** The cuts seen from the frame begun. */
  lemma {:induction false} ShiftCuts(payloads: seq<string>, n: nat, d: nat, pieces: seq<string>)
    ensures CutAfterOpening(payloads, n + d, pieces)
      <==> CutAfterOpening(payloads[Complete(payloads, n)..], Begun(payloads, n) + d, pieces)
    decreases pieces
  {
    ContinueCount(payloads, n, d);
    if pieces != [] {
      ShiftCuts(payloads, n, d + |pieces[0]|, pieces[1..]);
    }
  }

  lemma IdealParts(payloads: seq<string>, b: string, n: nat, k: nat, m: nat)
    requires |b| == n && k == Complete(payloads, n) && m == Begun(payloads, n)
    ensures m <= n && k <= |payloads| && Ideal(payloads, b) == Reading(payloads[..k], Some(Last(b, m)))
  {
  }

  /** What has come in by b and x: the lines complete in b, then what comes in by the frame
      begun in b and x. */
  lemma IdealContinues(payloads: seq<string>, b: string, x: string, c: nat, v: string)
    requires c == Complete(payloads, |b|) && v == Last(b, Begun(payloads, |b|))
    ensures Ideal(payloads, b + x) == Preceded(payloads[..c], Ideal(payloads[c..], v + x))
  {
    hide Ideal, Last, Complete, Begun;
    var k, m := Complete(payloads[c..], |v| + |x|), Begun(payloads[c..], |v| + |x|);
    ContinueCount(payloads, |b|, |x|);
    IdealParts(payloads, b + x, |b| + |x|, c + k, m);
    IdealParts(payloads[c..], v + x, |v| + |x|, k, m);
    TakeMore(payloads, c, k);
    LastOfMore(b, |v|, x, m);
  }

  lemma TakeMore<T>(s: seq<T>, c: nat, k: nat)
    requires c <= |s| && k <= |s[c..]|
    ensures s[..c + k] == s[..c] + s[c..][..k]
  {
  }

  lemma LastOfMore(b: string, n: nat, x: string, m: nat)
    requires n <= |b| && m <= n + |x|
    ensures Last(b + x, m) == Last(Last(b, n) + x, m)
  {
  }

  /** The bytes that lines take up on the wire. */
  function Weight(lines: seq<string>): nat {
    if lines == [] then 0 else |lines[0]| + 2 + Weight(lines[1..])
  }

  lemma {:induction false} WeightConcat(a: seq<string>, b: seq<string>)
    ensures Weight(a + b) == Weight(a) + Weight(b)
  {
    if a == [] {
      assert a + b == b;
    } else {
      WeightConcat(a[1..], b);
      assert (a + b)[1..] == a[1..] + b;
    }
  }

  lemma WeightNone()
    ensures Weight([]) == 0
  {
  }

  /** Nothing is received twice: lines and buffer together are no longer than the input. */
  lemma {:induction false} ConsumeWeight(b: string, atStart: bool)
    ensures var r := Consume(b, atStart); r.rest.Some? ==> Weight(r.lines) + |r.rest.value| <= |b|
    decreases |b|
  {
    hide Places, Weight, Preceded;
    WeightNone();
    PlacesBounds(b);
    match Places(b)
    case (Some(p), Some(q)) =>
      ConsumeFirst(b, atStart, p, q);
      ConsumeWeight(b[q + 1..], false);
      PrecededWeight(b[p + 1..q], Consume(b[q + 1..], false), |b| - q - 1);
    case _ =>
  }

  lemma PrecededWeight(line: string, later: Reading, n: nat)
    requires later.rest.Some? ==> Weight(later.lines) + |later.rest.value| <= n
    ensures var r := Preceded([line], later);
      r.rest.Some? ==> Weight(r.lines) + |r.rest.value| <= n + |line| + 2
  {
  }

  lemma {:induction false} ReceiveWeight(pending: string, pieces: seq<string>)
    ensures var r := Receive(pending, pieces);
      r.rest.Some? ==> Weight(r.lines) + |r.rest.value| <= |pending| + |Concat(pieces)|
    decreases pieces
  {
    if pieces != [] {
      if pieces[0] == "" {
        ReceiveWeight(pending, pieces[1..]);
      } else {
        ConsumeWeight(pending + pieces[0], true);
        var now := Consume(pending + pieces[0], true);
        if now.rest.Some? {
          ReceiveWeight(now.rest.value, pieces[1..]);
          WeightConcat(now.lines, Receive(now.rest.value, pieces[1..]).lines);
        }
      }
    }
  }

  lemma {:induction false} IdealWeight(payloads: seq<string>, n: nat)
    ensures Weight(payloads[..Complete(payloads, n)]) + Begun(payloads, n) == n
    decreases payloads
  {
    if payloads != [] && n >= |payloads[0]| + 2 {
      var n' := n - |payloads[0]| - 2;
      IdealWeight(payloads[1..], n');
      assert payloads[..Complete(payloads, n)][1..] == payloads[1..][..Complete(payloads[1..], n')];
    }
  }

  /** One read, when the stream's bytes u are in the buffer and no cut comes to lie behind an
      opening STX. */
  lemma NextRead(payloads: seq<string>, u: string, w: string, x: string)
    requires GoodPayloads(payloads) && w != "" && u + (w + x) <= Stream(payloads)
    requires !AfterOpening(payloads, |u + w|)
    ensures var now, c := Ideal(payloads, u + w), Complete(payloads, |u + w|);
      && Consume(u + w, true) == now
      && |now.rest.value| == Begun(payloads, |u + w|)
      && Complete(payloads[c..], |now.rest.value|) == 0
      && now.rest.value + x <= Stream(payloads[c..])
      && GoodPayloads(payloads[c..])
  {
    var b := u + w;
    assert u + (w + x) == b + x && b <= Stream(payloads);
    ConsumeStream(payloads, b, true);
    BegunFrame(payloads, b);
    ContinueText(payloads, b, x);
  }

  /** Without a cut directly after an opening STX, every complete payload has been handed on
      once, in order, and the buffer holds exactly the frame begun. */
  lemma {:induction false} ReceiveStream(payloads: seq<string>, u: string, pieces: seq<string>)
    requires GoodPayloads(payloads) && u + Concat(pieces) <= Stream(payloads)
    requires Complete(payloads, |u|) == 0
    requires !CutAfterOpening(payloads, |u|, pieces)
    ensures Receive(u, pieces) == Ideal(payloads, u + Concat(pieces))
    decreases pieces
  {
    hide Consume, Stream, AfterOpening;
    if pieces == [] {
      NothingReceived(payloads, u);
    } else if pieces[0] == "" {
      assert Concat(pieces) == Concat(pieces[1..]);
      ReceiveStream(payloads, u, pieces[1..]);
    } else {
      var w, x := pieces[0], Concat(pieces[1..]);
      var b := u + w;
      NextRead(payloads, u, w, x);
      ShiftCuts(payloads, |b|, 0, pieces[1..]);
      var c, v := Complete(payloads, |b|), Ideal(payloads, b).rest.value;
      ReceiveStream(payloads[c..], v, pieces[1..]);
      IdealContinues(payloads, b, x, c, v);
      assert u + Concat(pieces) == b + x;
    }
  }

  lemma NothingReceived(payloads: seq<string>, u: string)
    requires Complete(payloads, |u|) == 0
    ensures Ideal(payloads, u + "") == Reading([], Some(u))
  {
    assert Begun(payloads, |u|) == |u| && u + "" == u && u[0..] == u;
  }

  lemma DroppedByte(payloads: seq<string>, b: string, pieces: seq<string>)
    requires GoodPayloads(payloads) && b <= Stream(payloads) && AfterOpening(payloads, |b|)
    ensures var now := Consume(b, true);
      && now.rest == Some("")
      && var r := Preceded(now.lines, Receive("", pieces));
         r.rest.Some? ==> Weight(r.lines) + |r.rest.value| < |b| + |Concat(pieces)|
  {
    hide Consume, Stream, Complete, Begun, Receive;
    ConsumeStream(payloads, b, true);
    IdealWeight(payloads, |b|);
    ReceiveWeight("", pieces);
    WeightConcat(Consume(b, true).lines, Receive("", pieces).lines);
  }

  /** With a cut directly after an opening STX a byte is lost, or the buffer is overrun. */
  lemma {:induction false} ReceiveDrops(payloads: seq<string>, u: string, pieces: seq<string>)
    requires GoodPayloads(payloads) && u + Concat(pieces) <= Stream(payloads)
    requires Complete(payloads, |u|) == 0 && !AfterOpening(payloads, |u|)
    requires CutAfterOpening(payloads, |u|, pieces)
    ensures var r := Receive(u, pieces);
      r.rest.Some? ==> Weight(r.lines) + |r.rest.value| < |u| + |Concat(pieces)|
    decreases pieces
  {
    hide Consume, Stream, AfterOpening, Complete, Begun;
    if pieces[0] == "" {
      assert Concat(pieces) == Concat(pieces[1..]);
      ReceiveDrops(payloads, u, pieces[1..]);
    } else {
      var w, x := pieces[0], Concat(pieces[1..]);
      var b := u + w;
      assert u + Concat(pieces) == b + x;
      if AfterOpening(payloads, |b|) {
        DroppedByte(payloads, b, pieces[1..]);
      } else {
        NextRead(payloads, u, w, x);
        ShiftCuts(payloads, |b|, 0, pieces[1..]);
        NotAtOpening(payloads, |b|);
        IdealWeight(payloads, |b|);
        var c, v := Complete(payloads, |b|), Ideal(payloads, b).rest.value;
        ReceiveDrops(payloads[c..], v, pieces[1..]);
        WeightConcat(Consume(b, true).lines, Receive(v, pieces[1..]).lines);
      }
    }
  }

  lemma NotAtOpening(payloads: seq<string>, n: nat)
    ensures AfterOpening(payloads, n) <==> AfterOpening(payloads[Complete(payloads, n)..], Begun(payloads, n))
  {
  }

  /** A stream of frames, or the beginning of one, received in any pieces: the lines handed on
      are exactly the complete payloads, once each and in order, and the buffer holds
      exactly the unfinished frame, if and only if no cut falls directly after an STX that
      opens a frame. */
  lemma ReceivedExactly(payloads: seq<string>, pieces: seq<string>)
    requires GoodPayloads(payloads) && Concat(pieces) <= Stream(payloads)
    ensures Receive("", pieces) == Ideal(payloads, Concat(pieces)) <==> !CutAfterOpening(payloads, 0, pieces)
  {
    hide Receive, Stream, Concat, CutAfterOpening;
    assert "" + Concat(pieces) == Concat(pieces);
    if CutAfterOpening(payloads, 0, pieces) {
      ReceiveDrops(payloads, "", pieces);
      IdealWeight(payloads, |Concat(pieces)|);
    } else {
      ReceiveStream(payloads, "", pieces);
    }
  }

  lemma {:induction false} StreamComplete(payloads: seq<string>)
    ensures Complete(payloads, |Stream(payloads)|) == |payloads| && Begun(payloads, |Stream(payloads)|) == 0
  {
    if payloads != [] {
      StreamComplete(payloads[1..]);
    }
  }

  /** The whole stream: every payload once, in order, and an empty buffer, if and only if no
      cut falls directly after an opening STX. */
  lemma WholeStream(payloads: seq<string>, pieces: seq<string>)
    requires GoodPayloads(payloads) && Concat(pieces) == Stream(payloads)
    ensures Receive("", pieces) == Reading(payloads, Some("")) <==> !CutAfterOpening(payloads, 0, pieces)
  {
    hide Receive, Stream, Concat, CutAfterOpening;
    ReceivedExactly(payloads, pieces);
    StreamComplete(payloads);
  }

  /** The frame of "ab" cut after its STX: the next read makes the buffer move start in
      front of the buffer. */
  lemma CutFrameOverruns()
    ensures Stream(["ab"]) == Concat([[STX], "ab" + [ETX]])
    ensures Receive("", [[STX], "ab" + [ETX]]) == Reading([], None)
  {
    var pieces := [[STX], "ab" + [ETX]];
    assert pieces[1..] == ["ab" + [ETX]] && pieces[1..][1..] == [];
    assert Stream([]) == "" && ["ab"][1..] == [];
    assert Concat(pieces[1..]) == pieces[1] && Stream(["ab"]) == Frame("ab");
    assert "" + pieces[0] == [STX] && "" + pieces[1] == pieces[1];
    assert Consume([STX], true) == Reading([], Some(""));
    FirstAtNone(pieces[1], STX);
  }

  // ----- bytes outside of frames

  /** Bytes in front of a frame are skipped. */
  lemma FrameBehind(g: string, payload: string, b: string, atStart: bool)
    requires (2 as char) !in g && (3 as char) !in payload
    ensures Consume(g + ([2 as char] + payload + [3 as char]) + b, atStart) == Preceded([payload], Consume(b, false))
  {
    hide Consume, Preceded, FirstAt;
    var s := g + ([STX] + payload + [ETX]) + b;
    var behind := payload + [ETX] + b;
    FirstAtIs(g, STX, behind);
    FirstAtIs(payload, ETX, b);
    assert s == g + [STX] + behind;
    assert s[|g| + 1..] == behind;
    var q := |g| + 1 + |payload|;
    assert Places(s) == (Some(|g|), Some(q));
    ConsumeFirst(s, atStart, |g|, q);
    assert s[|g| + 1..q] == payload && s[q + 1..] == b;
  }

  /** Bytes without a frame's beginning are moved by one: to the right with a zero octet in front,
      or, when nothing has been handed on in this read, from in front of the buffer. */
  lemma NoFrame(g: string)
    requires (2 as char) !in g && g != ""
    ensures Consume(g, true) == Reading([], None)
    ensures Consume(g, false) == Reading([], Some([0 as char] + g[..|g| - 1]))
  {
    FirstAtNone(g, STX);
  }

  /** The beginning of a frame behind other bytes is kept, unless it is a lone STX. */
  lemma PartBehind(g: string, part: string, atStart: bool)
    requires (2 as char) !in g && (3 as char) !in part
    ensures Consume(g + [2 as char] + part, atStart)
      == Reading([], Some(if part == "" then "" else [2 as char] + part))
  {
    hide FirstAt;
    var s := g + [STX] + part;
    FirstAtIs(g, STX, part);
    FirstAtNone(part, ETX);
    assert s[|g| + 1..] == part && s[|g|..] == [STX] + part;
  }

  // ----- where the cuts are

  /** n bytes end directly after an opening STX if and only if they are some whole frames and one
      byte of another. */
  lemma {:induction false} AfterOpeningIs(payloads: seq<string>, n: nat)
    ensures AfterOpening(payloads, n) <==> exists k: nat :: k < |payloads| && n == |Stream(payloads[..k])| + 1
    decreases payloads
  {
    if payloads == [] {
    } else if n < |payloads[0]| + 2 {
      if n == 1 {
        assert payloads[..0] == [] && Stream([]) == "";
      }
      forall k: nat | 0 < k < |payloads|
        ensures n != |Stream(payloads[..k])| + 1
      {
        StreamPrefix(payloads, k);
      }
      assert forall k: nat :: k < |payloads| && k == 0 ==> payloads[..k] == [];
    } else {
      var d := |payloads[0]| + 2;
      AfterOpeningIs(payloads[1..], n - d);
      assert payloads[..0] == [] && Stream([]) == "";
      if k: nat :| k < |payloads[1..]| && n - d == |Stream(payloads[1..][..k])| + 1 {
        StreamPrefix(payloads, k + 1);
        assert n == |Stream(payloads[..k + 1])| + 1;
      }
      forall k: nat | k < |payloads| && n == |Stream(payloads[..k])| + 1
        ensures k > 0 && n - d == |Stream(payloads[1..][..k - 1])| + 1
      {
        if k > 0 {
          StreamPrefix(payloads, k);
        }
      }
    }
  }

  lemma StreamPrefix(payloads: seq<string>, k: nat)
    requires 0 < k <= |payloads|
    ensures |Stream(payloads[..k])| == |payloads[0]| + 2 + |Stream(payloads[1..][..k - 1])|
  {
    assert payloads[..k][1..] == payloads[1..][..k - 1];
  }

  /** The cuts of a stream in pieces are where pieces end. */
  lemma {:induction false} CutIs(payloads: seq<string>, n: nat, pieces: seq<string>)
    ensures CutAfterOpening(payloads, n, pieces)
      <==> exists j: nat :: j <= |pieces| && AfterOpening(payloads, n + |Concat(pieces[..j])|)
    decreases pieces
  {
    hide AfterOpening;
    assert pieces[..0] == [] && Concat([]) == "";
    if pieces != [] {
      CutIs(payloads, n + |pieces[0]|, pieces[1..]);
      forall j: nat | 0 < j <= |pieces|
        ensures |Concat(pieces[..j])| == |pieces[0]| + |Concat(pieces[1..][..j - 1])|
      {
        assert pieces[..j][1..] == pieces[1..][..j - 1];
      }
      if j: nat :| j <= |pieces[1..]| && AfterOpening(payloads, n + |pieces[0]| + |Concat(pieces[1..][..j])|) {
        assert AfterOpening(payloads, n + |Concat(pieces[..j + 1])|);
      }
      if j: nat :| 0 < j <= |pieces| && AfterOpening(payloads, n + |Concat(pieces[..j])|) {
        assert j - 1 <= |pieces[1..]|
          && AfterOpening(payloads, n + |pieces[0]| + |Concat(pieces[1..][..j - 1])|);
      }
    }
  }
}
