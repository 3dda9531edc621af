/** What each step of the request queue does, in messages and replies written out. */
module RequestSteps {
  import opened CStrings
  import opened Framing
  import opened Requests

  // ----- messages

  /** A message goes out between two octets, 2 and 3. */
  lemma FrameOctets(message: string)
    ensures Frame(message) == [2 as char] + message + [3 as char]
  {
  }

  /** The name asked for is cut at the first '|' behind its first character. */
  lemma RequestNameIs(first: char, name: string, rest: string)
    requires '|' !in name
    ensures RequestName("?" + [first] + name) == [first] + name
    ensures RequestName("?" + [first] + name + "|" + rest) == [first] + name
    ensures RequestName("?") == ""
  {
    hide FirstAt;
    var m, m' := "?" + [first] + name, "?" + [first] + name + "|" + rest;
    assert m[1..] == [first] + name && m[1..][1..] == name;
    assert m'[1..] == [first] + name + "|" + rest && m'[1..][1..] == name + "|" + rest;
    NoBar(name);
    FirstAtIs(name, '|', rest);
    assert name[..|name|] == name && (name + "|" + rest)[..|name|] == name;
  }

  lemma NoBar(name: string)
    requires '|' !in name
    ensures FirstAt(name, '|') == |name|
  {
    assert forall i :: 0 <= i < |name| ==> name[i] in name;
  }

  /** An empty reply is the name, an exclamation mark, anything, a bar and a zero. */
  lemma EmptyReplyIs(name: string, reply: string)
    ensures IsEmptyReply(name, reply) <==> exists m: string :: reply == name + "!" + m + "|0"
  {
    if IsEmptyReply(name, reply) {
      var m := reply[|name| + 1..|reply| - 2];
      assert reply == reply[..|name|] + [reply[|name|]] + m + [reply[|reply| - 2]] + [reply[|reply| - 1]];
      assert reply == name + "!" + m + "|0";
    }
    forall m: string | reply == name + "!" + m + "|0"
      ensures IsEmptyReply(name, reply)
    {
      assert reply[..|name|] == name;
    }
  }

  // ----- writes

  /** A write to an idle protocol goes out at once. It starts a wait if and only if the message
      starts with a question mark; any other leaves the event and the name asked for alone. */
  lemma SubmitIdle(s: State, m: string)
    requires Known(s) && !s.waiting
    ensures var r := Next(s, Submit(m));
      && r.wire == s.wire + ([2 as char] + m + [3 as char]) && r.sent == s.sent + [|s.submitted|]
      && r.queue == s.queue && r.submitted == s.submitted + [m]
      && (r.waiting <==> "?" <= m)
      && ("?" <= m ==> r.timer && !r.expired && r.active == (s.active && !s.expired) && r.lastReq == RequestName(m))
      && (!("?" <= m) ==>
           r.timer == s.timer && r.expired == s.expired && r.active == s.active && r.lastReq == s.lastReq)
  {
    hide RequestName;
    QuestionIs(m);
  }

  lemma QuestionIs(m: string)
    ensures IsQuestion(m) <==> "?" <= m
  {
  }

  /** A write while a reply is awaited is put last in the queue, and changes nothing else. */
  lemma SubmitBusy(s: State, m: string)
    requires Known(s) && s.waiting
    ensures var r := Next(s, Submit(m));
      && r.queue == s.queue + [|s.submitted|] && r.submitted == s.submitted + [m]
      && r.sent == s.sent && r.wire == s.wire && r.waiting && r.lastReq == s.lastReq
      && r.timer == s.timer && r.expired == s.expired && r.active == s.active
  {
  }

  // ----- replies and the idle event

  /** The completion of the table asked for, by its exact name or by an empty reply, ends the wait
      and activates the event; any other completion changes nothing. */
  lemma CompletedIs(s: State, name: string, line: string)
    requires Known(s)
    ensures var r := Next(s, Completed(name, line));
      var answered := s.waiting && (name == s.lastReq || exists m: string :: line == s.lastReq + "!" + m + "|0");
      && r.waiting == (s.waiting && !answered) && r.active == (s.active || answered)
      && r.timer == s.timer && r.expired == s.expired && r.lastReq == s.lastReq && r.queue == s.queue
      && r.wire == s.wire && r.submitted == s.submitted && r.sent == s.sent
  {
    hide IsEmptyReply;
    EmptyReplyIs(s.lastReq, line);
  }

  /** The end of the timer makes the callback due, for that reason alone. */
  lemma ExpireIs(s: State)
    requires Known(s)
    ensures var r := Next(s, Expire);
      && !r.timer && r.expired && !r.active && r.waiting == s.waiting && r.lastReq == s.lastReq
      && r.queue == s.queue && r.wire == s.wire && r.submitted == s.submitted && r.sent == s.sent
  {
  }

  /** Nothing is pending after a callback that finds nothing to send. One for a timeout and a reply
      together does nothing more; any other ends the wait and sends the first message queued,
      which starts a wait if and only if it starts with a question mark. */
  lemma CallbackIs(s: State)
    requires Known(s)
    ensures var r := Next(s, Callback);
      && r.submitted == s.submitted
      && (s.expired && s.active ==>
           && !r.timer && !r.expired && !r.active && r.waiting == s.waiting && r.lastReq == s.lastReq
           && r.queue == s.queue && r.wire == s.wire && r.sent == s.sent)
      && (!(s.expired && s.active) && s.queue == [] ==>
           && !r.timer && !r.expired && !r.active && !r.waiting && r.lastReq == s.lastReq
           && r.queue == [] && r.wire == s.wire && r.sent == s.sent)
      && (!(s.expired && s.active) && s.queue != [] ==>
           var m := s.submitted[s.queue[0]];
           && r.queue == s.queue[1..] && r.sent == s.sent + [s.queue[0]]
           && r.wire == s.wire + ([2 as char] + m + [3 as char])
           && !r.expired && !r.active && (r.timer <==> "?" <= m) && (r.waiting <==> "?" <= m)
           && r.lastReq == if "?" <= m then RequestName(m) else s.lastReq)
  {
    hide RequestName;
    if s.queue != [] {
      QuestionIs(s.submitted[s.queue[0]]);
    }
  }

  // ----- runs without questions

  /** If no message starts with a question mark, nothing ever waits, the queue stays empty, and
      every message is sent at once, in order. */
  lemma {:induction false} NothingWaits(run: seq<Action>)
    requires forall j :: 0 <= j < |run| && run[j].Submit? ==> !("?" <= run[j].message)
    ensures var s := After(run);
      && !s.waiting && s.queue == [] && !s.timer && !s.active && s.sent == Numbers(|s.submitted|)
  {
    if run == [] {
      assert Numbers(0) == [];
    } else {
      hide Next, Numbers;
      var before, a := run[..|run| - 1], run[|run| - 1];
      NothingWaits(before);
      var s := After(before);
      match a
      case Submit(m) =>
        SubmitIdle(s, m);
        OneNumberMore(|s.submitted|);
      case Completed(name, line) => CompletedIs(s, name, line);
      case Expire => ExpireIs(s);
      case Callback => CallbackIs(s);
    }
  }

  lemma OneNumberMore(n: nat)
    ensures Numbers(n + 1) == Numbers(n) + [n]
  {
  }
}
