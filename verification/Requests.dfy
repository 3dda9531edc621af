/** The request queue of the data protocol: one request at a time on the wire, the others
    waiting for a reply or a timeout. */
module Requests {
  import opened CStrings
  import opened Framing

  /** The protocol's variables, with a record of what was submitted and sent. Messages are
      known by their number in the order of submission. The idle event has a timer that may be
      running, and waits for its callback once the timer has expired, or once a reply has
      activated it, or both. */
  datatype State = State(
    waiting: bool, lastReq: string, queue: seq<nat>, timer: bool, expired: bool, active: bool,
    wire: string, submitted: seq<string>, sent: seq<nat>)
  {
    /** The callback of the idle event is due. */
    predicate Due() {
      expired || active
    }

    /** The callback will do nothing, as it is neither for a timeout nor for a reply but for
        both (line 309). */
    predicate Ignored() {
      expired && active
    }

    /** Nothing of the idle event is pending any more. */
    function Quiet(): State {
      this.(timer := false, expired := false, active := false)
    }
  }

  /** What can happen: a write, the completion of a table by a line, the end of the timer, and
      the callback of the idle event. */
  datatype Action = Submit(message: string) | Completed(name: string, line: string) | Expire | Callback

  const START := State(false, "", [], false, false, false, "", [], [])

  predicate IsQuestion(message: string) {
    message != "" && message[0] == '?'
  }

  /** The table a question asks for: up to the first '|', which is not looked for at the
      name's first character. */
  function RequestName(message: string): string
    requires IsQuestion(message)
  {
    var s := message[1..];
    if s == "" then "" else [s[0]] + s[1..][..FirstAt(s[1..], '|')]
  }

  /** is_empty_reply: "name!...|0" */
  predicate IsEmptyReply(name: string, reply: string) {
    && |name| < |reply| && reply[..|name|] == name && reply[|name|] == '!'
    && |reply| >= 2 && reply[|reply| - 1] == '0' && reply[|reply| - 2] == '|'
  }

  predicate Matches(s: State, name: string, line: string) {
    name == s.lastReq || IsEmptyReply(s.lastReq, line)
  }

  /** Puts message i on the wire (lines 265-291). Starting the timer takes an event whose timer
      has expired off the list of those due. */
  function Transmit(s: State, i: nat): State
    requires i < |s.submitted|
  {
    var message := s.submitted[i];
    var r := s.(wire := s.wire + Frame(message), sent := s.sent + [i]);
    if IsQuestion(message) then
      r.(timer := true, expired := false, active := s.active && !s.expired,
         waiting := true, lastReq := RequestName(message))
    else r
  }

  /** The callback for a timeout or a reply (lines 313-327). The event is not persistent:
      nothing of it is pending any more when the callback comes. */
  function Fire(s: State): State
    requires s.queue != [] ==> s.queue[0] < |s.submitted|
  {
    var r := s.Quiet().(waiting := false);
    if s.queue == [] then r else Transmit(r.(queue := s.queue[1..]), s.queue[0])
  }

  predicate Enabled(s: State, a: Action) {
    match a
    case Expire => s.timer
    case Callback => s.Due()
    case _ => true
  }

  /** The queue holds numbers of submitted messages. */
  predicate Known(s: State) {
    forall j :: 0 <= j < |s.queue| ==> s.queue[j] < |s.submitted|
  }

  function Next(s: State, a: Action): (r: State)
    requires Known(s)
    ensures Known(r)
  {
    match a
    case Submit(message) =>
      var r := s.(submitted := s.submitted + [message]);
      if s.waiting then r.(queue := s.queue + [|s.submitted|]) else Transmit(r, |s.submitted|)
    case Completed(name, line) =>
      if s.waiting && Matches(s, name, line) then s.(waiting := false, active := true) else s
    case Expire => s.(timer := false, expired := true, active := false)
    case Callback => if s.Ignored() then s.Quiet() else Fire(s)
  }

  /** The state after a run. */
  function After(run: seq<Action>): (s: State)
    ensures Known(s)
  {
    if run == [] then START else Next(After(run[..|run| - 1]), run[|run| - 1])
  }

  /** Every action of a run was possible when it came. */
  ghost predicate Possible(run: seq<Action>) {
    forall j :: 0 <= j < |run| ==> Enabled(After(run[..j]), run[j])
  }

  function FrameAll(submitted: seq<string>, sent: seq<nat>): string
    requires forall j :: 0 <= j < |sent| ==> sent[j] < |submitted|
  {
    if sent == [] then "" else FrameAll(submitted, sent[..|sent| - 1]) + Frame(submitted[sent[|sent| - 1]])
  }

  /** The numbers of the messages from k up to n. */
  function Numbers(n: nat): (r: seq<nat>)
    ensures |r| == n && forall j :: 0 <= j < n ==> r[j] == j
  {
    seq(n, j => j)
  }

  // ----- every run

  /** A write finds the protocol idle while requests are queued, and overtakes them. */
  predicate Overtakes(s: State, a: Action) {
    a.Submit? && !s.waiting && s.queue != []
  }

  /** What an action does to the sequence of messages sent and queued: nothing, one appended,
      or one inserted behind those sent. */
  lemma TrafficNext(s: State, a: Action)
    requires Known(s)
    ensures var t, t', n := s.sent + s.queue, Next(s, a).sent + Next(s, a).queue, |s.submitted|;
      if Overtakes(s, a) then t' == s.sent + [n] + s.queue
      else if a.Submit? then t' == t + [n]
      else t' == t
  {
  }

  /** The numbers sent and queued are all numbers given out, each once. */
  ghost predicate Conserved(s: State) {
    multiset(s.sent + s.queue) == multiset(Numbers(|s.submitted|))
  }

  lemma ConservedNext(s: State, a: Action)
    requires Known(s) && Conserved(s)
    ensures Conserved(Next(s, a))
  {
    hide Next, Numbers;
    TrafficNext(s, a);
    SubmittedNext(s, a);
    OneMoreNumber(s.sent, s.queue, |s.submitted|);
  }

  lemma OneMoreNumber(sent: seq<nat>, queue: seq<nat>, n: nat)
    ensures multiset(Numbers(n + 1)) == multiset(Numbers(n)) + multiset{n}
    ensures multiset(sent + [n] + queue) == multiset(sent + queue) + multiset{n}
    ensures multiset(sent + queue + [n]) == multiset(sent + queue) + multiset{n}
  {
    assert Numbers(n + 1) == Numbers(n) + [n];
  }

  lemma SubmittedNext(s: State, a: Action)
    requires Known(s)
    ensures |Next(s, a).submitted| == |s.submitted| + if a.Submit? then 1 else 0
  {
  }

  /** The queue is in the order of submission. */
  ghost predicate Ordered(s: State) {
    Known(s) && forall j, k :: 0 <= j < k < |s.queue| ==> s.queue[j] < s.queue[k]
  }

  lemma OrderedNext(s: State, a: Action)
    requires Ordered(s)
    ensures Ordered(Next(s, a))
  {
  }

  ghost predicate SentKnown(s: State) {
    forall j :: 0 <= j < |s.sent| ==> s.sent[j] < |s.submitted|
  }

  /** The wire carries the frames of the messages sent, and nothing else. */
  ghost predicate Framed(s: State) {
    SentKnown(s) && s.wire == FrameAll(s.submitted, s.sent)
  }

  lemma {:induction false} FrameAllMore(submitted: seq<string>, sent: seq<nat>, message: string)
    requires forall j :: 0 <= j < |sent| ==> sent[j] < |submitted|
    ensures FrameAll(submitted + [message], sent) == FrameAll(submitted, sent)
  {
    if sent != [] {
      FrameAllMore(submitted, sent[..|sent| - 1], message);
    }
  }

  lemma FramedTransmit(s: State, i: nat)
    requires Framed(s) && i < |s.submitted|
    ensures Framed(Transmit(s, i))
  {
    hide FrameAll, Transmit;
    TransmitParts(s, i);
    FrameOneMore(s.submitted, s.sent, i);
  }

  lemma TransmitParts(s: State, i: nat)
    requires i < |s.submitted|
    ensures var r := Transmit(s, i);
      r.submitted == s.submitted && r.sent == s.sent + [i] && r.wire == s.wire + Frame(s.submitted[i])
  {
    hide Frame, RequestName;
  }

  lemma FrameOneMore(submitted: seq<string>, sent: seq<nat>, i: nat)
    requires i < |submitted| && forall j :: 0 <= j < |sent| ==> sent[j] < |submitted|
    ensures FrameAll(submitted, sent + [i]) == FrameAll(submitted, sent) + Frame(submitted[i])
  {
    hide Frame;
    assert (sent + [i])[..|sent|] == sent;
  }

  lemma FramedNext(s: State, a: Action)
    requires Known(s) && Framed(s)
    ensures Framed(Next(s, a))
  {
    match a
    case Submit(message) =>
      FrameAllMore(s.submitted, s.sent, message);
      var r := s.(submitted := s.submitted + [message]);
      if !s.waiting {
        FramedTransmit(r, |s.submitted|);
      }
    case Callback =>
      if !s.Ignored() && s.queue != [] {
        FramedTransmit(s.Quiet().(waiting := false, queue := s.queue[1..]), s.queue[0]);
      }
    case _ =>
  }

  /** Whoever waits for a response will hear of the idle event, and its callback will act. */
  ghost predicate Awake(s: State) {
    s.waiting ==> (s.timer || s.Due()) && !s.Ignored()
  }

  lemma AwakeNext(s: State, a: Action)
    requires Known(s) && Awake(s)
    ensures Awake(Next(s, a))
  {
  }

  /** Over every run: each message is sent or queued, once; the queue is in the order of
      submission; the wire is the concatenation of the frames of the messages sent; and
      waiting for a response implies that the idle event is pending. */
  lemma {:induction false} EveryRun(run: seq<Action>)
    ensures var s := After(run); Conserved(s) && Ordered(s) && Framed(s) && Awake(s)
  {
    if run == [] {
      assert Numbers(0) == [];
    } else {
      hide Conserved, Ordered, Framed, Next;
      var s, a := After(run[..|run| - 1]), run[|run| - 1];
      EveryRun(run[..|run| - 1]);
      AwakeNext(s, a);
      ConservedNext(s, a);
      OrderedNext(s, a);
      FramedNext(s, a);
    }
  }

  // ----- first in, first out

  /** The numbers that a run put into the queue, and those it took out, in order. */
  function Enqueued(run: seq<Action>): seq<nat> {
    if run == [] then []
    else
      var s, a := After(run[..|run| - 1]), run[|run| - 1];
      Enqueued(run[..|run| - 1]) + if a.Submit? && s.waiting then [|s.submitted|] else []
  }

  function Dequeued(run: seq<Action>): seq<nat> {
    if run == [] then []
    else
      var s, a := After(run[..|run| - 1]), run[|run| - 1];
      Dequeued(run[..|run| - 1]) + if a.Callback? && !s.Ignored() && s.queue != [] then [s.queue[0]] else []
  }

  ghost predicate Ascending(numbers: seq<nat>, n: nat) {
    && (forall j, k :: 0 <= j < k < |numbers| ==> numbers[j] < numbers[k])
    && (forall j :: 0 <= j < |numbers| ==> numbers[j] < n)
  }

  lemma FifoNext(s: State, a: Action, entered: seq<nat>, left: seq<nat>)
    requires Known(s) && entered == left + s.queue
    ensures entered + (if a.Submit? && s.waiting then [|s.submitted|] else [])
      == left + (if a.Callback? && !s.Ignored() && s.queue != [] then [s.queue[0]] else []) + Next(s, a).queue
  {
    hide IsQuestion, RequestName, Frame, Matches;
    assert left + [] == left && entered + [] == entered;
    if s.queue != [] {
      assert s.queue == [s.queue[0]] + s.queue[1..];
      assert left + ([s.queue[0]] + s.queue[1..]) == left + [s.queue[0]] + s.queue[1..];
    }
  }

  /** Over every run the messages that entered the queue are those that left it, followed by
      those still in it; and they entered, hence leave, in the order of submission. */
  lemma {:induction false} FirstInFirstOut(run: seq<Action>)
    ensures Enqueued(run) == Dequeued(run) + After(run).queue
    ensures Ascending(Enqueued(run), |After(run).submitted|)
    ensures Ascending(Dequeued(run), |After(run).submitted|)
  {
    if run != [] {
      hide Next;
      var s, a := After(run[..|run| - 1]), run[|run| - 1];
      FirstInFirstOut(run[..|run| - 1]);
      SubmittedNext(s, a);
      FifoNext(s, a, Enqueued(run[..|run| - 1]), Dequeued(run[..|run| - 1]));
      AscendingPrefix(Dequeued(run), After(run).queue, |After(run).submitted|);
    }
  }

  lemma AscendingPrefix(a: seq<nat>, b: seq<nat>, n: nat)
    ensures Ascending(a + b, n) ==> Ascending(a, n)
  {
    assert forall j :: 0 <= j < |a| ==> (a + b)[j] == a[j];
  }

  // ----- the order of sending

  ghost predicate NeverOvertakes(run: seq<Action>) {
    forall j :: 0 <= j < |run| ==> !Overtakes(After(run[..j]), run[j])
  }

  ghost predicate InOrder(s: State) {
    s.sent + s.queue == Numbers(|s.submitted|)
  }

  /** The message numbered hi comes before a lower one. */
  ghost predicate Swapped(s: State, lo: nat, hi: nat) {
    exists j, k :: 0 <= j < k < |s.sent + s.queue| && (s.sent + s.queue)[j] == hi && (s.sent + s.queue)[k] == lo
  }

  lemma InOrderNext(s: State, a: Action)
    requires Known(s) && InOrder(s) && !Overtakes(s, a)
    ensures InOrder(Next(s, a))
  {
    var n := |s.submitted|;
    assert Numbers(n + 1) == Numbers(n) + [n];
    match a
    case Submit(_) =>
      assert s.sent + s.queue + [n] == s.sent + (s.queue + [n]);
      assert s.queue == [] ==> s.sent + s.queue == s.sent && (s.sent + [n]) + [] == s.sent + [n];
    case Callback =>
      if s.queue != [] {
        assert s.queue == [s.queue[0]] + s.queue[1..];
        assert s.sent + s.queue == (s.sent + [s.queue[0]]) + s.queue[1..];
      }
    case _ =>
  }

  lemma SwappedNext(s: State, a: Action, lo: nat, hi: nat)
    requires Known(s) && Swapped(s, lo, hi)
    ensures Swapped(Next(s, a), lo, hi)
  {
    var t, r := s.sent + s.queue, Next(s, a);
    var t' := r.sent + r.queue;
    TrafficNext(s, a);
    var j, k :| 0 <= j < k < |t| && t[j] == hi && t[k] == lo;
    if t' == t || t' == t + [|s.submitted|] {
      assert t'[j] == hi && t'[k] == lo;
    } else {
      var m := |s.sent|;
      var j', k' := if j < m then j else j + 1, if k < m then k else k + 1;
      assert t'[j'] == hi && t'[k'] == lo;
    }
  }

  lemma SwappedIsNotInOrder(s: State, lo: nat, hi: nat)
    requires Swapped(s, lo, hi) && lo < hi
    ensures !InOrder(s)
  {
  }

  lemma OvertakingSwaps(s: State, a: Action)
    requires Known(s) && Overtakes(s, a)
    ensures Swapped(Next(s, a), s.queue[0], |s.submitted|)
  {
    var r, m := Next(s, a), |s.sent|;
    assert (r.sent + r.queue)[m] == |s.submitted| && (r.sent + r.queue)[m + 1] == s.queue[0];
  }

  lemma {:induction false} StaysSwapped(run: seq<Action>, j: nat, lo: nat, hi: nat)
    requires j <= |run| && Swapped(After(run[..j]), lo, hi)
    ensures Swapped(After(run), lo, hi)
    decreases |run|
  {
    if j == |run| {
      assert run[..j] == run;
    } else {
      var before := run[..|run| - 1];
      assert before[..j] == run[..j];
      StaysSwapped(before, j, lo, hi);
      SwappedNext(After(before), run[|run| - 1], lo, hi);
    }
  }

  lemma {:induction false} StaysInOrder(run: seq<Action>)
    requires NeverOvertakes(run)
    ensures InOrder(After(run))
  {
    if run == [] {
      assert Numbers(0) == [];
    } else {
      var before := run[..|run| - 1];
      forall j | 0 <= j < |before|
        ensures !Overtakes(After(before[..j]), before[j])
      {
        assert before[..j] == run[..j];
      }
      StaysInOrder(before);
      InOrderNext(After(before), run[|run| - 1]);
    }
  }

  /** The messages sent followed by those queued are the messages submitted, in order, if and
      only if no write ever found the protocol idle with requests still queued. */
  lemma OrderKept(run: seq<Action>)
    ensures InOrder(After(run)) <==> NeverOvertakes(run)
  {
    hide Next, Swapped, InOrder;
    if NeverOvertakes(run) {
      StaysInOrder(run);
    } else {
      var j :| 0 <= j < |run| && Overtakes(After(run[..j]), run[j]);
      var s := After(run[..j]);
      OvertakingSwaps(s, run[j]);
      assert run[..j + 1][..j] == run[..j];
      StaysSwapped(run, j + 1, s.queue[0], |s.submitted|);
      SwappedIsNotInOrder(After(run), s.queue[0], |s.submitted|);
    }
  }
}
