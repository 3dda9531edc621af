/** The idle event of the data protocol: when one request at a time is on the wire, and when the
    queue can be forgotten. */
module IdleEvents {
  import opened Requests
  import opened Framing

  datatype Signal = Sent(i: nat) | Heard  // a matching reply or a timeout

  function SignalsOf(s: State, a: Action): seq<Signal> {
    match a
    case Submit(_) => if s.waiting then [] else [Sent(|s.submitted|)]
    case Completed(name, line) => if s.waiting && Matches(s, name, line) then [Heard] else []
    case Expire => []
    case Callback =>
      if s.Ignored() then []
      else (if s.expired then [Heard] else []) + if s.queue == [] then [] else [Sent(s.queue[0])]
  }

  function Log(run: seq<Action>): seq<Signal> {
    if run == [] then [] else Log(run[..|run| - 1]) + SignalsOf(After(run[..|run| - 1]), run[|run| - 1])
  }

  /** Between any two sends something was heard. */
  ghost predicate Separated(log: seq<Signal>) {
    forall j, k :: 0 <= j < k < |log| && log[j].Sent? && log[k].Sent? ==> HeardBetween(log, j, k)
  }

  /** Nothing has been sent since something was heard. */
  predicate Clear(log: seq<Signal>) {
    log == [] || log[|log| - 1] == Heard
  }

  ghost predicate OnlyQuestions(run: seq<Action>) {
    forall j :: 0 <= j < |run| && run[j].Submit? ==> IsQuestion(run[j].message)
  }

  /** A reply has activated the idle event, whose callback will find it so: a request sent now
      would be taken for answered. */
  predicate Window(s: State) {
    s.active && !s.expired
  }

  /** From action k on no write falls into the window. */
  ghost predicate NoWriteInWindow(run: seq<Action>, k: nat) {
    forall j :: k <= j < |run| && run[j].Submit? ==> !Window(After(run[..j]))
  }

  // ----- runs, one action at a time

  lemma StartOfRun()
    ensures After([]) == START && Log([]) == [] && Possible([]) && OnlyQuestions([]) && NoWriteInWindow([], 0)
  {
  }

  lemma OneMore(run: seq<Action>, a: Action)
    ensures After(run + [a]) == Next(After(run), a)
    ensures Log(run + [a]) == Log(run) + SignalsOf(After(run), a)
  {
  }

  lemma PrefixOf(run: seq<Action>, a: Action, j: nat)
    requires j <= |run|
    ensures (run + [a])[..j] == run[..j] && (run + [a])[|run|] == a
    ensures j < |run| ==> (run + [a])[j] == run[j]
  {
  }

  lemma PossibleMore(run: seq<Action>, a: Action)
    ensures Possible(run + [a]) <==> Possible(run) && Enabled(After(run), a)
  {
    hide After, Enabled;
    var r := run + [a];
    assert r[..|run|] == run;
    forall j | 0 <= j < |run|
      ensures r[..j] == run[..j] && r[j] == run[j]
    {
      PrefixOf(run, a, j);
    }
    if Possible(r) {
      assert Enabled(After(r[..|run|]), r[|run|]);
      forall j | 0 <= j < |run|
        ensures Enabled(After(run[..j]), run[j])
      {
        assert Enabled(After(r[..j]), r[j]);
      }
    }
  }

  lemma QuestionsMore(run: seq<Action>, a: Action)
    ensures OnlyQuestions(run + [a]) <==> OnlyQuestions(run) && (a.Submit? ==> IsQuestion(a.message))
  {
    var r := run + [a];
    assert r[|run|] == a;
    assert forall j :: 0 <= j < |run| ==> r[j] == run[j];
  }

  lemma WindowMore(run: seq<Action>, a: Action, k: nat)
    requires k <= |run|
    ensures NoWriteInWindow(run + [a], k) <==> NoWriteInWindow(run, k) && (a.Submit? ==> !Window(After(run)))
  {
    hide After, Window;
    var r := run + [a];
    assert r[..|run|] == run && r[|run|] == a;
    forall j | 0 <= j < |run|
      ensures r[..j] == run[..j] && r[j] == run[j]
    {
      PrefixOf(run, a, j);
    }
    if NoWriteInWindow(r, k) {
      forall j | k <= j < |run| && run[j].Submit?
        ensures !Window(After(run[..j]))
      {
        assert r[j].Submit?;
      }
    }
  }

  // ----- one request at a time

  /** Something was heard between two places of the log. */
  ghost predicate HeardBetween(log: seq<Signal>, j: int, k: int)
    requires 0 <= j < k < |log|
  {
    exists i :: j < i < k && log[i] == Heard
  }

  lemma SeparatedAppend(log: seq<Signal>, e: Signal)
    requires Separated(log) && (e.Sent? ==> Clear(log))
    ensures Separated(log + [e])
  {
    var r := log + [e];
    forall j, k | 0 <= j < k < |r| && r[j].Sent? && r[k].Sent?
      ensures HeardBetween(r, j, k)
    {
      if k < |log| {
        assert HeardBetween(log, j, k);
        var i :| j < i < k && log[i] == Heard;
        assert r[i] == Heard;
      } else {
        assert r[|log| - 1] == Heard;
      }
    }
  }

  ghost predicate OneAtATime(s: State, log: seq<Signal>) {
    && Separated(log)
    && (!s.waiting ==> Clear(log))
    && (s.active ==> !s.waiting)
    && AllQuestions(s)
  }

  /** The events of a callback: something heard, something sent, or both. */
  lemma CallbackSeparated(log: seq<Signal>, heard: bool, sent: seq<Signal>)
    requires Separated(log) && (!heard ==> Clear(log))
    requires |sent| <= 1 && (sent != [] ==> sent[0].Sent?)
    ensures Separated(log + ((if heard then [Heard] else []) + sent))
    ensures sent == [] ==> Clear(log + ((if heard then [Heard] else []) + sent))
  {
    hide Separated;
    var log' := if heard then log + [Heard] else log;
    if heard {
      SeparatedAppend(log, Heard);
    }
    if sent == [] {
      assert log' + sent == log';
    } else {
      SeparatedAppend(log', sent[0]);
      assert sent == [sent[0]];
    }
    assert log' + sent == log + ((if heard then [Heard] else []) + sent);
  }

  lemma OneAtATimeNext(s: State, a: Action, log: seq<Signal>)
    requires Known(s) && OneAtATime(s, log) && Enabled(s, a)
    requires a.Submit? ==> IsQuestion(a.message) && !Window(s)
    ensures OneAtATime(Next(s, a), log + SignalsOf(s, a))
  {
    hide Separated;
    assert log + [] == log;
    match a
    case Submit(_) =>
      if !s.waiting {
        SeparatedAppend(log, Sent(|s.submitted|));
      }
    case Completed(name, line) =>
      if s.waiting && Matches(s, name, line) {
        SeparatedAppend(log, Heard);
      }
    case Expire =>
    case Callback =>
      if !s.Ignored() {
        CallbackSeparated(log, s.expired, if s.queue == [] then [] else [Sent(s.queue[0])]);
      }
  }

  lemma LastAction(run: seq<Action>)
    requires run != []
    ensures run == run[..|run| - 1] + [run[|run| - 1]]
  {
  }

  /** If all requests are questions and no write falls into the window, two sends are always
      separated by a matching reply or a timeout. */
  lemma {:induction false} SendsSeparated(run: seq<Action>)
    requires Possible(run) && OnlyQuestions(run) && NoWriteInWindow(run, 0)
    ensures OneAtATime(After(run), Log(run))
  {
    if run != [] {
      hide Possible, OnlyQuestions, NoWriteInWindow, Window, OneAtATime, After, Log;
      var before, a := run[..|run| - 1], run[|run| - 1];
      LastAction(run);
      PossibleMore(before, a);
      QuestionsMore(before, a);
      WindowMore(before, a, 0);
      SendsSeparated(before);
      OneAtATimeNext(After(before), a, Log(before));
      OneMore(before, a);
    }
  }

  lemma NotSeparated(log: seq<Signal>, i: nat, k: nat)
    ensures !Separated(log + [Sent(i)] + [Sent(k)])
  {
    var r := log + [Sent(i)] + [Sent(k)];
    assert r[|log|].Sent? && r[|log| + 1].Sent?;
  }

  ghost predicate AllQuestions(s: State) {
    forall j :: 0 <= j < |s.submitted| ==> IsQuestion(s.submitted[j])
  }

  lemma {:induction false} QuestionsSubmitted(run: seq<Action>)
    requires OnlyQuestions(run)
    ensures AllQuestions(After(run))
  {
    if run != [] {
      hide OnlyQuestions;
      var before, a := run[..|run| - 1], run[|run| - 1];
      LastAction(run);
      QuestionsMore(before, a);
      QuestionsSubmitted(before);
    }
  }

  /** What a write in the window, the callback and another write do. */
  lemma WindowSteps(s: State, m: string, m': string) returns (k: nat)
    requires Known(s) && AllQuestions(s) && Window(s) && !s.waiting && IsQuestion(m) && IsQuestion(m')
    ensures var s1 := Next(s, Submit(m)); var s2 := Next(s1, Callback);
      && SignalsOf(s, Submit(m)) == [Sent(|s.submitted|)]
      && Enabled(s1, Callback) && !Window(s2)
      && SignalsOf(s1, Callback) + SignalsOf(s2, Submit(m')) == [Sent(k)]
  {
    var s1 := Next(s, Submit(m));
    k := if s.queue == [] then |s.submitted| + 1 else s.queue[0];
    assert s1.queue == s.queue && s1.active && !s1.expired;
    assert [Sent(k)] + [] == [Sent(k)];
  }

  /** A write in the window, whatever came before it, can leave two requests unanswered: the
      callback declares the protocol idle, and the next request is sent. */
  lemma WindowWriteBreaks(run: seq<Action>, m: string, m': string)
    requires Possible(run) && OnlyQuestions(run) && IsQuestion(m) && IsQuestion(m')
    requires Window(After(run)) && !After(run).waiting
    ensures var r := run + [Submit(m)] + [Callback] + [Submit(m')];
      Possible(r) && OnlyQuestions(r) && NoWriteInWindow(r, |run| + 1) && !Separated(Log(r))
  {
    hide Possible, OnlyQuestions, Separated, After, Log, SignalsOf, Next, Window, NoWriteInWindow;
    var r1 := run + [Submit(m)];
    var r2 := r1 + [Callback];
    QuestionsSubmitted(run);
    var k := WindowSteps(After(run), m, m');
    Extended(run, Submit(m), |run|);
    NothingWritten(r1);
    Extended(r1, Callback, |run| + 1);
    Extended(r2, Submit(m'), |run| + 1);
    var e2, e3 := SignalsOf(After(r1), Callback), SignalsOf(After(r2), Submit(m'));
    assert Log(r2 + [Submit(m')]) == Log(run) + [Sent(|After(run).submitted|)] + (e2 + e3);
    NotSeparated(Log(run), |After(run).submitted|, k);
  }

  lemma Extended(run: seq<Action>, a: Action, k: nat)
    ensures After(run + [a]) == Next(After(run), a)
    ensures Log(run + [a]) == Log(run) + SignalsOf(After(run), a)
    ensures Possible(run) && Enabled(After(run), a) ==> Possible(run + [a])
    ensures OnlyQuestions(run) && (a.Submit? ==> IsQuestion(a.message)) ==> OnlyQuestions(run + [a])
    ensures k <= |run| && NoWriteInWindow(run, k) && (a.Submit? ==> !Window(After(run))) ==>
      NoWriteInWindow(run + [a], k)
  {
    hide Possible, OnlyQuestions, After, Log, SignalsOf, Window, NoWriteInWindow;
    OneMore(run, a);
    PossibleMore(run, a);
    QuestionsMore(run, a);
    if k <= |run| {
      WindowMore(run, a, k);
    }
  }

  lemma NothingWritten(run: seq<Action>)
    ensures NoWriteInWindow(run, |run|)
  {
  }

  /** Any way to go on after a run, with questions only and no write in the window. */
  ghost predicate Continues(run: seq<Action>, more: seq<Action>) {
    Possible(run + more) && OnlyQuestions(run + more) && NoWriteInWindow(run + more, |run|)
  }

  lemma JoinedWindows(run: seq<Action>, more: seq<Action>)
    requires NoWriteInWindow(run, 0) && NoWriteInWindow(run + more, |run|)
    ensures NoWriteInWindow(run + more, 0)
  {
    hide After, Window;
    var r := run + more;
    forall j | 0 <= j < |r| && r[j].Submit?
      ensures !Window(After(r[..j]))
    {
      if j < |run| {
        assert r[..j] == run[..j];
      }
    }
  }

  /** A write is safe if and only if it does not fall into the window: then, and only then, all
      sends are separated however things go on. */
  lemma WindowExact(run: seq<Action>, m: string)
    requires Possible(run) && OnlyQuestions(run) && NoWriteInWindow(run, 0) && IsQuestion(m)
    ensures !Window(After(run)) <==>
      forall more :: Continues(run + [Submit(m)], more) ==> Separated(Log(run + [Submit(m)] + more))
  {
    hide Possible, OnlyQuestions, Separated, After, Log, Window, NoWriteInWindow;
    var r := run + [Submit(m)];
    SendsSeparated(run);
    if Window(After(run)) {
      ActiveIsIdle(After(run));
      WindowWriteBreaks(run, m, m);
      var more := [Callback] + [Submit(m)];
      assert r + more == r + [Callback] + [Submit(m)];
      assert Continues(r, more) && !Separated(Log(r + more));
    } else {
      WindowMore(run, Submit(m), 0);
      forall more | Continues(r, more)
        ensures Separated(Log(r + more))
      {
        JoinedWindows(r, more);
        SendsSeparated(r + more);
      }
    }
  }

  lemma ActiveIsIdle(s: State)
    ensures Window(s) && (s.active ==> !s.waiting) ==> !s.waiting
  {
  }

  // ----- the order of questions

  /** A reply has come and the callback of the idle event has not. */
  predicate Replied(s: State) {
    !s.waiting && s.Due()
  }

  /** Requests are queued, and nothing will ever send them but another write. */
  predicate Stalled(s: State) {
    !s.waiting && s.queue != [] && !s.timer && !s.Due()
  }

  ghost predicate NoWriteBeforeCallback(run: seq<Action>) {
    forall j :: 0 <= j < |run| && run[j].Submit? ==> !Replied(After(run[..j]))
  }

  ghost predicate NoWriteWhileStalled(run: seq<Action>) {
    forall j :: 0 <= j < |run| && run[j].Submit? ==> !Stalled(After(run[..j]))
  }

  /** Idle with requests queued: the callback is due, or nothing is pending. */
  ghost predicate IdleQueue(s: State) {
    AllQuestions(s) && (!s.waiting && s.queue != [] ==> s.Due() || !s.timer)
  }

  lemma IdleQueueNext(s: State, a: Action)
    requires Known(s) && IdleQueue(s) && (a.Submit? ==> IsQuestion(a.message))
    ensures IdleQueue(Next(s, a))
  {
  }

  lemma {:induction false} IdleQueueAlways(run: seq<Action>, j: nat)
    requires OnlyQuestions(run) && j <= |run|
    ensures IdleQueue(After(run[..j]))
  {
    if j > 0 {
      IdleQueueAlways(run, j - 1);
      assert run[..j][..j - 1] == run[..j - 1];
      IdleQueueNext(After(run[..j - 1]), run[j - 1]);
    }
  }

  /** With questions only, and no write between a reply and the callback, the messages sent
      followed by those queued are the messages submitted, in order, if and only if nothing was
      written while the queue was stalled. */
  lemma OrderOfQuestions(run: seq<Action>)
    requires OnlyQuestions(run) && NoWriteBeforeCallback(run)
    ensures InOrder(After(run)) <==> NoWriteWhileStalled(run)
  {
    hide OnlyQuestions, After, InOrder;
    OrderKept(run);
    forall j | 0 <= j < |run| && run[j].Submit?
      ensures Overtakes(After(run[..j]), run[j]) <==> Stalled(After(run[..j]))
    {
      IdleQueueAlways(run, j);
    }
  }

  // ----- the queue and the callback

  /** At j a callback for a timeout and a reply together found requests queued, and nothing has
      been written since. */
  ghost predicate Stalls(run: seq<Action>, j: nat) {
    && j < |run| && run[j].Callback?
    && After(run[..j]).Ignored() && After(run[..j]).queue != []
    && forall k :: j < k < |run| ==> !run[k].Submit?
  }

  lemma StalledNext(s: State, a: Action)
    requires Known(s) && IdleQueue(s) && Awake(s) && Enabled(s, a) && (a.Submit? ==> IsQuestion(a.message))
    ensures Stalled(Next(s, a)) <==> (Stalled(s) && !a.Submit?) || (a.Callback? && s.Ignored() && s.queue != [])
  {
  }

  lemma StallsNext(run: seq<Action>, a: Action)
    ensures (exists j: nat :: Stalls(run + [a], j)) <==>
      || ((exists j: nat :: Stalls(run, j)) && !a.Submit?)
      || (a.Callback? && After(run).Ignored() && After(run).queue != [])
  {
    hide After;
    var r := run + [a];
    PrefixOf(run, a, |run|);
    forall j: nat | j < |run|
      ensures Stalls(r, j) <==> Stalls(run, j) && !a.Submit?
    {
      StallsPrefix(run, a, j);
    }
    if (exists j: nat :: Stalls(run, j)) && !a.Submit? {
      var j: nat :| Stalls(run, j);
      assert Stalls(r, j);
    }
    assert Stalls(r, |run|) <==> a.Callback? && After(run).Ignored() && After(run).queue != [];
  }

  lemma StallsPrefix(run: seq<Action>, a: Action, j: nat)
    requires j < |run|
    ensures Stalls(run + [a], j) <==> Stalls(run, j) && !a.Submit?
  {
    hide After;
    var r := run + [a];
    PrefixOf(run, a, j);
    assert r[|run|] == a;
    assert forall k :: 0 <= k < |run| ==> r[k] == run[k];
  }

  /** With questions only, a queue stands still with nothing pending if and only if a callback
      came for a timeout and a reply together and nothing has been written since. */
  lemma {:induction false} StalledExactly(run: seq<Action>)
    requires Possible(run) && OnlyQuestions(run)
    ensures Stalled(After(run)) <==> exists j: nat :: Stalls(run, j)
  {
    if run != [] {
      hide Possible, OnlyQuestions, Stalled, Stalls, Enabled;
      var before, a := run[..|run| - 1], run[|run| - 1];
      LastAction(run);
      PossibleMore(before, a);
      QuestionsMore(before, a);
      StalledExactly(before);
      EveryRun(before);
      IdleQueueAlways(before, |before|);
      assert before[..|before|] == before;
      StalledNext(After(before), a);
      StallsNext(before, a);
    }
  }

  /** So whoever is queued or waits will hear of the idle event, unless the queue is stalled. */
  lemma QueueIsAwake(run: seq<Action>)
    requires Possible(run) && OnlyQuestions(run)
    ensures var s := After(run);
      (s.waiting || s.queue != [] ==> s.timer || s.Due()) <==> !exists j: nat :: Stalls(run, j)
  {
    hide Possible, OnlyQuestions, After, Stalls;
    EveryRun(run);
    StalledExactly(run);
  }

  ghost predicate NoneIgnored(run: seq<Action>) {
    forall j :: 0 <= j < |run| && run[j].Callback? ==> !After(run[..j]).Ignored()
  }

  lemma PrefixPossible(run: seq<Action>, j: nat)
    requires j <= |run| && Possible(run) && OnlyQuestions(run)
    ensures Possible(run[..j]) && OnlyQuestions(run[..j])
  {
    hide After;
    forall k | 0 <= k < j
      ensures run[..j][..k] == run[..k] && run[..j][k] == run[k]
    {
    }
  }

  /** With questions only, no write between a reply and the callback, and no callback for a
      timeout and a reply together, the order is kept. */
  lemma QuestionsKeepOrder(run: seq<Action>)
    requires Possible(run) && OnlyQuestions(run) && NoWriteBeforeCallback(run) && NoneIgnored(run)
    ensures InOrder(After(run))
  {
    hide Possible, OnlyQuestions, After, InOrder, Stalled, NoWriteBeforeCallback;
    OrderOfQuestions(run);
    forall j | 0 <= j < |run| && run[j].Submit?
      ensures !Stalled(After(run[..j]))
    {
      PrefixPossible(run, j);
      StalledExactly(run[..j]);
      forall i: nat | i < j
        ensures run[..j][..i] == run[..i] && run[..j][i] == run[i]
      {
      }
    }
  }

  // ----- two short runs

  /** A request and its reply open the window. */
  lemma WindowOpens()
    ensures var run := [Submit("?a"), Completed("a", "a0|")];
      && Possible(run) && OnlyQuestions(run) && NoWriteInWindow(run, 0)
      && Window(After(run)) && !After(run).waiting
  {
    hide Possible, OnlyQuestions, NoWriteInWindow, After, Log;
    StartOfRun();
    Extended([], Submit("?a"), 0);
    var r1 := [] + [Submit("?a")];
    assert RequestName("?a") == "a" && After(r1).lastReq == "a";
    Extended(r1, Completed("a", "a0|"), 0);
    assert r1 + [Completed("a", "a0|")] == [Submit("?a"), Completed("a", "a0|")];
  }

  /** The timer runs out before the reply is read, and the callback comes for both: the queue is
      stalled, and the next write overtakes it. */
  lemma StalledQueueOvertaken()
    ensures var run := [Submit("?a"), Submit("?b"), Expire, Completed("a", "a0|"), Callback];
      && Possible(run) && OnlyQuestions(run) && NoWriteInWindow(run, 0)
      && Stalled(After(run)) && !Replied(After(run))
      && !InOrder(After(run + [Submit("?c")]))
  {
    hide Possible, OnlyQuestions, NoWriteInWindow, After, Log, InOrder;
    StartOfRun();
    Extended([], Submit("?a"), 0);
    var r1 := [] + [Submit("?a")];
    assert RequestName("?a") == "a" && After(r1).lastReq == "a";
    Extended(r1, Submit("?b"), 0);
    var r2 := r1 + [Submit("?b")];
    Extended(r2, Expire, 0);
    var r3 := r2 + [Expire];
    Extended(r3, Completed("a", "a0|"), 0);
    var r4 := r3 + [Completed("a", "a0|")];
    Extended(r4, Callback, 0);
    var r5 := r4 + [Callback];
    assert r5 == [Submit("?a"), Submit("?b"), Expire, Completed("a", "a0|"), Callback];
    OneMore(r5, Submit("?c"));
    OvertakingSwaps(After(r5), Submit("?c"));
    SwappedIsNotInOrder(After(r5 + [Submit("?c")]), 1, 2);
  }

  // ----- the queue drains

  /** No writes. */
  ghost predicate NoWrites(more: seq<Action>) {
    forall j :: 0 <= j < |more| ==> !more[j].Submit?
  }

  /** How many callbacks of a continuation are not ignored when they come. */
  function Acted(run: seq<Action>, more: seq<Action>): nat {
    if more == [] then 0
    else
      var before, a := more[..|more| - 1], more[|more| - 1];
      Acted(run, before) + if a.Callback? && !After(run + before).Ignored() then 1 else 0
  }

  /** What any action but a write takes from the queue and sends. */
  lemma TakenNext(s: State, a: Action)
    requires Known(s) && !a.Submit?
    ensures var k := if a.Callback? && !s.Ignored() && s.queue != [] then 1 else 0;
      Next(s, a).queue == s.queue[k..] && Next(s, a).sent == s.sent + s.queue[..k]
  {
    hide Frame, RequestName, IsQuestion, Matches;
  }

  lemma TakenTwice(queue: seq<nat>, sent: seq<nat>, n: nat, k: nat)
    requires n + k <= |queue|
    ensures queue[n..][k..] == queue[n + k..] && sent + queue[..n] + queue[n..][..k] == sent + queue[..n + k]
  {
  }

  /** However a run goes on without writes, by replies or by timeouts: each callback that is not
      ignored sends the next queued message, until the queue is empty, and nothing else does. */
  lemma {:induction false} CallbacksDrain(run: seq<Action>, more: seq<Action>)
    requires NoWrites(more)
    ensures var s, r, acted := After(run), After(run + more), Acted(run, more);
      var n := if acted < |s.queue| then acted else |s.queue|;
      && r.queue == s.queue[n..] && r.sent == s.sent + s.queue[..n]
      && (r.queue == [] <==> acted >= |s.queue|)
  {
    hide After, Next;
    var s := After(run);
    if more == [] {
      assert run + more == run && s.sent + s.queue[..0] == s.sent;
    } else {
      var before, a := more[..|more| - 1], more[|more| - 1];
      CallbacksDrain(run, before);
      assert run + more == run + before + [a];
      OneMore(run + before, a);
      TakenNext(After(run + before), a);
      var acted := Acted(run, before);
      var n := if acted < |s.queue| then acted else |s.queue|;
      TakenTwice(s.queue, s.sent, n, if Acted(run, more) > acted && n < |s.queue| then 1 else 0);
    }
  }

  function Callbacks(more: seq<Action>): nat {
    if more == [] then 0
    else Callbacks(more[..|more| - 1]) + if more[|more| - 1].Callback? then 1 else 0
  }

  /** Every callback counts if none is ignored. */
  lemma {:induction false} AllCallbacksAct(run: seq<Action>, more: seq<Action>)
    requires forall j :: 0 <= j < |more| && more[j].Callback? ==> !After(run + more[..j]).Ignored()
    ensures Acted(run, more) == Callbacks(more)
  {
    hide After;
    if more != [] {
      var before := more[..|more| - 1];
      assert forall j :: 0 <= j < |before| ==> before[..j] == more[..j];
      AllCallbacksAct(run, before);
    }
  }

  /** A run that goes on by replies: n times the answer to the last request, and the callback. */
  function Answered(run: seq<Action>, n: nat): seq<Action> {
    if n == 0 then run
    else
      var r := Answered(run, n - 1);
      r + [Completed(After(r).lastReq, "")] + [Callback]
  }

  /** A request on the wire whose reply and timeout are still to come. */
  predicate Unanswered(s: State) {
    s.waiting && s.timer && !s.Due()
  }

  lemma AnswerNext(s: State)
    requires Known(s) && AllQuestions(s) && Unanswered(s) && s.queue != []
    ensures var s1 := Next(s, Completed(s.lastReq, "")); var s2 := Next(s1, Callback);
      && s1.Due() && Unanswered(s2) && s2.queue == s.queue[1..] && s2.sent == s.sent + [s.queue[0]]
  {
    hide Frame, RequestName;
  }

  lemma AnswerOfRun(run: seq<Action>)
    requires Possible(run) && OnlyQuestions(run) && Unanswered(After(run)) && After(run).queue != []
    ensures var r, s := Answered(run, 1), After(run);
      && r == run + [Completed(s.lastReq, "")] + [Callback]
      && Possible(r) && OnlyQuestions(r) && Unanswered(After(r))
      && After(r).queue == s.queue[1..] && After(r).sent == s.sent + [s.queue[0]]
  {
    hide Possible, OnlyQuestions, After, Log, NoWriteInWindow, Next, SignalsOf, Unanswered;
    QuestionsSubmitted(run);
    AnswerNext(After(run));
    assert Answered(run, 0) == run;
    Extended(run, Completed(After(run).lastReq, ""), 0);
    Extended(run + [Completed(After(run).lastReq, "")], Callback, 0);
  }

  /** With questions only, n replies, each followed by the callback, send the first n queued
      requests, in order: such a run is always possible. */
  lemma {:induction false} RepliesDrain(run: seq<Action>, n: nat)
    requires Possible(run) && OnlyQuestions(run) && n <= |After(run).queue| && Unanswered(After(run))
    ensures var r, s := Answered(run, n), After(run);
      && run <= r && Possible(r) && OnlyQuestions(r) && Unanswered(After(r))
      && After(r).queue == s.queue[n..] && After(r).sent == s.sent + s.queue[..n]
  {
    hide Possible, OnlyQuestions, After, Unanswered;
    var s := After(run);
    if n == 0 {
      assert s.sent + s.queue[..0] == s.sent;
    } else {
      RepliesDrain(run, n - 1);
      var r := Answered(run, n - 1);
      AnswerOfRun(r);
      assert Answered(run, n) == Answered(r, 1);
      assert s.queue[n - 1..][1..] == s.queue[n..];
      assert s.sent + s.queue[..n - 1] + [s.queue[n - 1]] == s.sent + s.queue[..n];
    }
  }

  /** A run that goes on by timeouts: n times the end of the timer, if it runs, and the
      callback. */
  function Drained(run: seq<Action>, n: nat): seq<Action> {
    if n == 0 then run
    else
      var r := Drained(run, n - 1);
      r + (if After(r).timer then [Expire] else []) + [Callback]
  }

  /** The state after the timer, if it runs, and the callback. */
  lemma Turn(s: State)
    requires Known(s) && IdleQueue(s) && Awake(s) && s.queue != [] && !Stalled(s) && (s.timer || !s.Ignored())
    ensures var s1 := if s.timer then Next(s, Expire) else s; var s2 := Next(s1, Callback);
      && s1.Due() && s2.queue == s.queue[1..] && s2.sent == s.sent + [s.queue[0]]
      && s2.waiting && s2.timer && !s2.Due() && s2.submitted == s.submitted
  {
  }

  /** The queue will be served. */
  ghost predicate Served(s: State) {
    !Stalled(s) && (s.timer || !s.Ignored())
  }

  /** The run goes on by the timer, if it runs, and the callback. */
  lemma TurnOfRun(run: seq<Action>)
    requires Possible(run) && OnlyQuestions(run) && Served(After(run)) && After(run).queue != []
    ensures var r, s := run + (if After(run).timer then [Expire] else []) + [Callback], After(run);
      && Possible(r) && OnlyQuestions(r) && Served(After(r))
      && After(r).queue == s.queue[1..] && After(r).sent == s.sent + [s.queue[0]]
  {
    hide Possible, OnlyQuestions, After, Log, NoWriteInWindow, IdleQueue, Awake, Next, SignalsOf;
    EveryRun(run);
    IdleQueueAlways(run, |run|);
    assert run[..|run|] == run && run + [] == run;
    Turn(After(run));
    Extended(run, Expire, 0);
    var r1 := if After(run).timer then run + [Expire] else run;
    Extended(r1, Callback, 0);
  }

  /** With questions only, and unless the queue is stalled or about to be, n timeouts send the
      first n queued requests, in order: such a run is always possible. */
  lemma {:induction false} TimeoutsDrain(run: seq<Action>, n: nat)
    requires Possible(run) && OnlyQuestions(run) && n <= |After(run).queue| && Served(After(run))
    ensures var r, s := Drained(run, n), After(run);
      && run <= r && Possible(r) && OnlyQuestions(r) && Served(After(r))
      && After(r).queue == s.queue[n..] && After(r).sent == s.sent + s.queue[..n]
  {
    hide Possible, OnlyQuestions, After, Served;
    var s := After(run);
    if n == 0 {
      assert s.sent + s.queue[..0] == s.sent;
    } else {
      TimeoutsDrain(run, n - 1);
      TurnOfRun(Drained(run, n - 1));
      assert s.queue[n - 1..][1..] == s.queue[n..];
      assert s.sent + s.queue[..n - 1] + [s.queue[n - 1]] == s.sent + s.queue[..n];
    }
  }
}
